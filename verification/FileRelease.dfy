/** Giving blocks back: cutting a file short and dropping it altogether. */
module FileRelease {
  import opened Base
  import opened Devices
  import opened Allocators
  import opened Extents
  import opened Inodes
  import opened FileData
  import opened FileBytes
  import opened FileGrowth
  import opened FileWrites

  lemma ReleaseOne(a: Allocation, block: u64)
    requires a.Valid() && block < a.count && block in a.used
    ensures a.Release(block).Ok?
    ensures var after := a.Release(block).value;
            after.Valid() && after.count == a.count && after.used == a.used - {block}
  {
  }

  lemma {:induction false} ReleaseRangeEffect(a: Allocation, from: nat, end: nat)
    requires a.Valid() && end <= a.count
    requires forall b: u64 :: from <= b < end ==> b in a.used
    ensures var (after, r) := ReleaseRange(a, from, end);
            && r == Ok(()) && after.Valid() && after.count == a.count
            && forall b: u64 :: b in after.used <==> b in a.used && !(from <= b < end)
    decreases end - from
  {
    hide Allocation.Valid, Allocation.Release;
    if from < end {
      assert Wrap64(from) == from;
      ReleaseOne(a, from);
      ReleaseRangeEffect(a.Release(from).value, from + 1, end);
    }
  }

  /** Dropping a file gives back exactly the blocks it owned. */
  lemma {:induction false} ReleaseExtentsEffect(a: Allocation, extents: seq<Extent>)
    requires a.Valid() && WellFormed(extents, a.count) && PhysicallyDisjoint(extents) && OwnedIn(extents, a.used)
    ensures var (after, r) := ReleaseExtents(a, extents);
            && r == Ok(()) && after.Valid() && after.count == a.count
            && forall b: int :: b in after.used <==> b in a.used && b !in Owned(extents)
    decreases |extents|
  {
    if extents != [] {
      var e, rest := extents[0], extents[1..];
      OwnedTail(extents, a);
      hide PhysicallyDisjoint, ReleaseRange, Allocation.Valid, WellFormed, Owned;
      if e.sparse {
        ReleaseExtentsEffect(a, rest);
      } else {
        assert forall b: u64 :: b in BlocksOf(e) <==> e.physical <= b < e.physical + e.blockCount;
        ReleaseRangeEffect(a, e.physical, e.physical + e.blockCount);
        ReleaseExtentsEffect(ReleaseRange(a, e.physical, e.physical + e.blockCount).0, rest);
      }
    } else {
      assert Owned(extents) == {};
    }
  }

  // ----- Cutting a file short -----

  function CutAll(extents: seq<Extent>, blocks: u64): seq<Extent> {
    if extents == [] then []
    else
      var cut := Cut(extents[0], blocks);
      (if cut.None? then [] else [cut.value]) + CutAll(extents[1..], blocks)
  }

  lemma OneCut(e: Extent, blocks: u64, block: int)
    ensures Cut(e, blocks).Some? ==>
              && (Cut(e, blocks).value.CoversLogical(block) <==> e.CoversLogical(block) && block < blocks)
              && Cut(e, blocks).value.Target(block) == e.Target(block)
    ensures Cut(e, blocks).None? ==> !(e.CoversLogical(block) && block < blocks)
  {
  }

  /** Surviving blocks keep their place, cut blocks become holes. */
  lemma {:induction false} CutLookup(extents: seq<Extent>, blocks: u64, block: int)
    ensures Lookup(CutAll(extents, blocks), block) == if block < blocks then Lookup(extents, block) else None
    ensures Covered(CutAll(extents, blocks), block) <==> Covered(extents, block) && block < blocks
  {
    if extents == [] {
      assert CutAll(extents, blocks) == [];
    } else {
      var e, rest := extents[0], extents[1..];
      var cut := Cut(e, blocks);
      CutLookup(rest, blocks, block);
      assert extents == [e] + rest;
      OneCut(e, blocks, block);
      var front := if cut.None? then [] else [cut.value];
      assert CutAll(extents, blocks) == front + CutAll(rest, blocks);
      hide Cut, Lookup, Covered, CutAll;
      LookupConcat([e], rest, block);
      CoveredConcat([e], rest, block);
      OneExtent(e, block);
      if cut.Some? {
        LookupConcat([cut.value], CutAll(rest, blocks), block);
        CoveredConcat([cut.value], CutAll(rest, blocks), block);
        OneExtent(cut.value, block);
      } else {
        assert front + CutAll(rest, blocks) == CutAll(rest, blocks);
      }
      LookupUncovered(rest, block);
    }
  }

  /** Each extent of the cut list comes from one of the whole list, in order. */
  lemma {:induction false} CutOrigin(extents: seq<Extent>, blocks: u64, i: nat) returns (k: nat)
    requires i < |CutAll(extents, blocks)|
    ensures i <= k < |extents| && Cut(extents[k], blocks) == Some(CutAll(extents, blocks)[i])
  {
    var rest := extents[1..];
    if Cut(extents[0], blocks).None? {
      assert CutAll(extents, blocks) == CutAll(rest, blocks);
      k := CutOrigin(rest, blocks, i);
      k := k + 1;
    } else if i == 0 {
      k := 0;
    } else {
      assert CutAll(extents, blocks)[i] == CutAll(rest, blocks)[i - 1];
      k := CutOrigin(rest, blocks, i - 1);
      k := k + 1;
    }
  }

  lemma {:induction false} CutKeepsForm(extents: seq<Extent>, blocks: u64, deviceBlocks: u64)
    requires WellFormed(extents, deviceBlocks) && PhysicallyDisjoint(extents) && Ordered(extents)
    ensures var cut := CutAll(extents, blocks);
            && WellFormed(cut, deviceBlocks) && PhysicallyDisjoint(cut) && Ordered(cut)
            && forall b :: b in Owned(cut) ==> b in Owned(extents)
  {
    if extents != [] {
      var e, rest := extents[0], extents[1..];
      assert Sound(e, deviceBlocks);
      assert forall i :: 0 <= i < |rest| ==> rest[i] == extents[i + 1];
      CutKeepsForm(rest, blocks, deviceBlocks);
      var tail := CutAll(rest, blocks);
      var cut := Cut(e, blocks);
      if cut.Some? {
        forall i | 0 <= i < |tail| ensures Apart(cut.value, tail[i]) && cut.value.logical + cut.value.blockCount <= tail[i].logical {
          var k := CutOrigin(rest, blocks, i);
          assert Apart(extents[0], extents[k + 1]);
          assert extents[0].logical + extents[0].blockCount <= extents[k + 1].logical;
        }
        PrependForm(cut.value, tail, deviceBlocks);
        assert [cut.value] + tail == CutAll(extents, blocks);
        assert ([cut.value] + tail)[1..] == tail;
      } else {
        assert CutAll(extents, blocks) == tail;
      }
    }
  }

  lemma PrependForm(e: Extent, tail: seq<Extent>, deviceBlocks: u64)
    requires WellFormed(tail, deviceBlocks) && PhysicallyDisjoint(tail) && Ordered(tail) && Sound(e, deviceBlocks)
    requires forall i :: 0 <= i < |tail| ==> Apart(e, tail[i]) && e.logical + e.blockCount <= tail[i].logical
    ensures WellFormed([e] + tail, deviceBlocks) && PhysicallyDisjoint([e] + tail) && Ordered([e] + tail)
  {
  }

  ghost predicate Lost(before: set<u64>, after: set<u64>, had: set<int>, kept: set<int>) {
    forall b: u64 :: b in after <==> b in before && (b in had ==> b in kept)
  }

  /** Losing blocks of the head and then of the rest is losing blocks of the whole. */
  lemma LostInTurn(before: set<u64>, middle: set<u64>, after: set<u64>, head: set<int>, keptHead: set<int>, rest: set<int>, keptRest: set<int>)
    requires Lost(before, middle, head, keptHead) && Lost(middle, after, rest, keptRest)
    requires head !! rest && keptHead <= head && keptRest <= rest
    ensures Lost(before, after, head + rest, keptHead + keptRest)
  {
  }

  lemma DetachHead(a: Allocation, extents: seq<Extent>, retained: seq<Extent>, blocks: u64)
    requires extents != [] && Sound(extents[0], a.count)
    requires ReleaseCut(a, extents[0], blocks).1.Ok?
    ensures Detach(a, extents, retained, blocks) ==
            Detach(ReleaseCut(a, extents[0], blocks).0, extents[1..], Retained(retained, extents[0], blocks), blocks)
  {
    hide ReleaseCut, Retained;
  }

  lemma CutAllHead(extents: seq<Extent>, retained: seq<Extent>, blocks: u64)
    requires extents != []
    ensures Retained(retained, extents[0], blocks) + CutAll(extents[1..], blocks) == retained + CutAll(extents, blocks)
  {
    hide Cut;
    var tail := CutAll(extents[1..], blocks);
    if Cut(extents[0], blocks).None? {
      assert [] + tail == tail;
    } else {
      var cut := Cut(extents[0], blocks).value;
      assert retained + [cut] + tail == retained + ([cut] + tail);
    }
  }

  lemma OwnedTail(extents: seq<Extent>, a: Allocation)
    requires extents != [] && WellFormed(extents, a.count) && PhysicallyDisjoint(extents) && OwnedIn(extents, a.used)
    ensures WellFormed(extents[1..], a.count) && PhysicallyDisjoint(extents[1..]) && Sound(extents[0], a.count)
    ensures BlocksOf(extents[0]) !! Owned(extents[1..]) && Owned(extents) == BlocksOf(extents[0]) + Owned(extents[1..])
    ensures forall b :: b in BlocksOf(extents[0]) ==> b in a.used
    ensures OwnedIn(extents[1..], a.used)
  {
    HeadApart(extents);
    assert forall i :: 0 <= i < |extents[1..]| ==> extents[1..][i] == extents[i + 1];
    assert forall b :: b in BlocksOf(extents[0]) ==> b in Owned(extents);
  }

  /** The bitmap loses exactly the blocks the cut list no longer has. */
  lemma {:induction false} DetachEffect(a: Allocation, extents: seq<Extent>, retained: seq<Extent>, blocks: u64)
    requires a.Valid() && WellFormed(extents, a.count) && PhysicallyDisjoint(extents) && OwnedIn(extents, a.used)
    ensures var (after, r) := Detach(a, extents, retained, blocks);
            && r == Ok(retained + CutAll(extents, blocks)) && after.Valid() && after.count == a.count
            && Lost(a.used, after.used, Owned(extents), Owned(CutAll(extents, blocks)))
    decreases |extents|
  {
    CutHead(extents, blocks);
    if extents == [] {
      assert retained + CutAll(extents, blocks) == retained;
    } else {
      var e, rest := extents[0], extents[1..];
      OwnedTail(extents, a);
      ReleaseCutEffect(a, e, blocks);
      DetachHead(a, extents, retained, blocks);
      CutAllHead(extents, retained, blocks);
      hide *;
      var released, next := ReleaseCut(a, e, blocks).0, Retained(retained, e, blocks);
      StillOwned(a.used, released.used, BlocksOf(e), CutBlocks(e, blocks), rest);
      DetachEffect(released, rest, next, blocks);
      CutOwned(rest, blocks);
      LostInTurn(a.used, released.used, Detach(released, rest, next, blocks).0.used,
                 BlocksOf(e), CutBlocks(e, blocks), Owned(rest), Owned(CutAll(rest, blocks)));
    }
  }

  lemma StillOwned(before: set<u64>, after: set<u64>, head: set<int>, kept: set<int>, rest: seq<Extent>)
    requires Lost(before, after, head, kept) && head !! Owned(rest) && OwnedIn(rest, before)
    ensures OwnedIn(rest, after)
  {
    hide Owned;
  }

  lemma {:induction false} CutOwned(extents: seq<Extent>, blocks: u64)
    ensures Owned(CutAll(extents, blocks)) <= Owned(extents)
  {
    CutHead(extents, blocks);
    if extents != [] {
      CutOwned(extents[1..], blocks);
    }
  }

  function CutBlocks(e: Extent, blocks: u64): set<int> {
    if Cut(e, blocks).None? then {} else BlocksOf(Cut(e, blocks).value)
  }

  lemma CutHead(extents: seq<Extent>, blocks: u64)
    ensures extents != [] ==>
              && Owned(CutAll(extents, blocks)) == CutBlocks(extents[0], blocks) + Owned(CutAll(extents[1..], blocks))
              && CutBlocks(extents[0], blocks) <= BlocksOf(extents[0])
    ensures extents == [] ==> Owned(CutAll(extents, blocks)) == {}
  {
    if extents != [] {
      var cut := Cut(extents[0], blocks);
      var tail := CutAll(extents[1..], blocks);
      if cut.Some? {
        assert ([cut.value] + tail)[1..] == tail;
      } else {
        assert [] + tail == tail;
      }
    }
  }

  lemma CutParts(e: Extent, blocks: u64, b: int)
    ensures b in BlocksOf(e) <==> !e.sparse && e.physical <= b < e.physical + e.blockCount
    ensures b in CutBlocks(e, blocks) <==> !e.sparse && e.physical <= b < e.physical + Kept(e, blocks)
    ensures Kept(e, blocks) <= e.blockCount
  {
  }

  lemma ReleaseCutEffect(a: Allocation, e: Extent, blocks: u64)
    requires a.Valid() && Sound(e, a.count)
    requires forall b :: b in BlocksOf(e) ==> b in a.used
    ensures var (after, r) := ReleaseCut(a, e, blocks);
            && r == Ok(()) && after.Valid() && after.count == a.count
            && Lost(a.used, after.used, BlocksOf(e), CutBlocks(e, blocks))
  {
    hide ReleaseRange, BlocksOf, CutBlocks, Kept, Cut, Allocation.Valid;
    forall b: int ensures b in BlocksOf(e) <==> !e.sparse && e.physical <= b < e.physical + e.blockCount
      ensures b in CutBlocks(e, blocks) <==> !e.sparse && e.physical <= b < e.physical + Kept(e, blocks)
    {
      CutParts(e, blocks, b);
    }
    if !e.sparse {
      ReleaseRangeEffect(a, e.physical + Kept(e, blocks), e.physical + e.blockCount);
    }
  }

  /** Cutting a file keeps its extents covering exactly the remaining blocks, keeps the place of
      every surviving block, and frees exactly the blocks the file no longer has. */
  lemma ResizeDownEffect(store: Store, inode: Inode, size: u64, superblock: Superblock, limits: Limits)
    requires StoreOk(store, superblock)
    requires WellFormed(inode.extents, superblock.blockCount) && PhysicallyDisjoint(inode.extents)
    requires ExactCover(inode.extents, Blocks(inode, superblock)) && OwnedIn(inode.extents, store.allocation.used)
    requires size <= limits.maxFileBytes && CeilDivide(size, superblock.blockSize) < Blocks(inode, superblock)
    ensures var (after, cut, r) := Resize(store, inode, size, superblock, limits);
            && r == Ok(()) && cut.size == size
            && StoreOk(after, superblock) && after.device == store.device
            && ExactCover(cut.extents, CeilDivide(size, superblock.blockSize))
            && WellFormed(cut.extents, superblock.blockCount) && PhysicallyDisjoint(cut.extents)
            && (forall block: int :: block < CeilDivide(size, superblock.blockSize) ==>
                  Lookup(cut.extents, block) == Lookup(inode.extents, block))
            && Lost(store.allocation.used, after.allocation.used, Owned(inode.extents), Owned(cut.extents))
            && cut.allocatedBytes == PhysicalCount(cut.extents) * superblock.blockSize
  {
    hide Lookup, Owned, Detach, PhysicalCount, Settle, WellFormed, PhysicallyDisjoint, Ordered, CutAll;
    var blocks := CeilDivide(size, superblock.blockSize);
    DetachEffect(store.allocation, inode.extents, [], blocks);
    assert [] + CutAll(inode.extents, blocks) == CutAll(inode.extents, blocks);
    CutKeepsForm(inode.extents, blocks, superblock.blockCount);
    forall block: int ensures Lookup(CutAll(inode.extents, blocks), block) == if block < blocks then Lookup(inode.extents, block) else None
      ensures Covered(CutAll(inode.extents, blocks), block) <==> Covered(inode.extents, block) && block < blocks
    {
      CutLookup(inode.extents, blocks, block);
    }
    SettleGrown(inode.(extents := CutAll(inode.extents, blocks)), size, superblock);
  }
}
