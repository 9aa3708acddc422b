/** Growing a file: new blocks are zeroed, owned by nobody else, and extend the covered range. */
module FileGrowth {
  import opened Base
  import opened Devices
  import opened Allocators
  import opened Extents
  import opened Inodes
  import opened FileData
  import opened FileBytes

  // ----- Extents and ownership -----

  /** The extents are in order and cover exactly the first `n` logical blocks. */
  ghost predicate ExactCover(extents: seq<Extent>, n: nat) {
    Ordered(extents) && forall block: int :: Covered(extents, block) <==> 0 <= block < n
  }

  lemma OwnedIffLookup(extents: seq<Extent>, owned: int)
    requires Disjoint(extents)
    ensures owned in Owned(extents) ==> exists block: int :: Lookup(extents, block) == Some(owned)
  {
    if owned in Owned(extents) {
      OwnedMeans(extents, owned);
      var i :| 0 <= i < |extents| && extents[i].Owns(owned);
      var block := extents[i].logical + owned - extents[i].physical;
      LookupAt(extents, i, block);
      assert Lookup(extents, block) == Some(owned);
    }
  }

  lemma SameLookupSameOwned(a: seq<Extent>, b: seq<Extent>)
    requires Disjoint(a) && Disjoint(b)
    requires forall block: int :: Lookup(a, block) == Lookup(b, block)
    ensures Owned(a) == Owned(b)
  {
    hide Disjoint;
    forall owned ensures owned in Owned(a) <==> owned in Owned(b) {
      OwnedIffLookup(a, owned);
      OwnedIffLookup(b, owned);
      if owned in Owned(a) {
        var block: int :| Lookup(a, block) == Some(owned);
        LookupOwned(b, block);
      }
      if owned in Owned(b) {
        var block: int :| Lookup(b, block) == Some(owned);
        LookupOwned(a, block);
      }
    }
  }

  ghost predicate InjectiveLookup(extents: seq<Extent>) {
    forall a: int, b: int :: Lookup(extents, a).Some? && Lookup(extents, a) == Lookup(extents, b) ==> a == b
  }

  lemma InjectiveIsDisjoint(extents: seq<Extent>, deviceBlocks: u64)
    requires Disjoint(extents) && WellFormed(extents, deviceBlocks) && InjectiveLookup(extents)
    ensures PhysicallyDisjoint(extents)
  {
    forall i, j | 0 <= i < j < |extents| ensures Apart(extents[i], extents[j]) {
      var e, f := extents[i], extents[j];
      assert Sound(e, deviceBlocks) && Sound(f, deviceBlocks);
      if !Apart(e, f) {
        var shared := Max(e.physical, f.physical);
        var a, b := e.logical + shared - e.physical, f.logical + shared - f.physical;
        LookupAt(extents, i, a);
        LookupAt(extents, j, b);
      }
    }
  }

  lemma DisjointIsInjective(extents: seq<Extent>)
    requires PhysicallyDisjoint(extents)
    ensures InjectiveLookup(extents)
  {
    forall a: int, b: int | Lookup(extents, a).Some? && Lookup(extents, a) == Lookup(extents, b) ensures a == b {
      LookupInjective(extents, a, b);
    }
  }

  lemma HeadApart(extents: seq<Extent>)
    requires extents != [] && PhysicallyDisjoint(extents)
    ensures BlocksOf(extents[0]) !! Owned(extents[1..])
    ensures PhysicallyDisjoint(extents[1..])
  {
    var e, rest := extents[0], extents[1..];
    assert forall i :: 0 <= i < |rest| ==> rest[i] == extents[i + 1];
    forall b | b in Owned(rest) ensures b !in BlocksOf(e) {
      OwnedMeans(rest, b);
      var i :| 0 <= i < |rest| && rest[i].Owns(b);
      assert Apart(extents[0], extents[i + 1]);
    }
  }

  lemma OneExtentCount(e: Extent)
    ensures |BlocksOf(e)| == if e.sparse then 0 else e.blockCount
  {
    IntervalCount(e.physical, e.physical + e.blockCount);
  }

  lemma {:induction false} OwnedCount(extents: seq<Extent>)
    requires PhysicallyDisjoint(extents)
    ensures |Owned(extents)| == PhysicalCount(extents)
  {
    if extents != [] {
      HeadApart(extents);
      hide PhysicallyDisjoint, BlocksOf;
      OwnedCount(extents[1..]);
      OneExtentCount(extents[0]);
      DisjointUnion(BlocksOf(extents[0]), Owned(extents[1..]));
    }
  }

  lemma DisjointUnion(a: set<int>, b: set<int>)
    requires a !! b
    ensures |a + b| == |a| + |b|
  {
  }

  /** A list that takes no block twice takes at most as many as the device has. */
  lemma PhysicalCountBound(extents: seq<Extent>, deviceBlocks: u64)
    requires PhysicallyDisjoint(extents) && WellFormed(extents, deviceBlocks)
    ensures PhysicalCount(extents) <= deviceBlocks
  {
    OwnedCount(extents);
    forall b | b in Owned(extents) ensures b in Interval(0, deviceBlocks) {
      OwnedInRange(extents, deviceBlocks, b);
    }
    SubsetSize(Owned(extents), Interval(0, deviceBlocks));
    IntervalCount(0, deviceBlocks);
  }

  // ----- The new one-block extents -----

  function Singles(blocks: seq<u64>, next: u64): (singles: seq<Extent>)
    requires next + |blocks| < TWO64
    ensures |singles| == |blocks|
    ensures forall i :: 0 <= i < |blocks| ==> singles[i] == Extent(next + i, blocks[i], 1, false)
  {
    seq(|blocks|, i requires 0 <= i < |blocks| => Extent(next + i, blocks[i], 1, false))
  }

  lemma ZeroAt(d: Device, block: u64)
    requires block < d.BlockCount()
    ensures d.Zero(block).Ok? && SameShape(d, d.Zero(block).value)
    ensures forall b, i: nat :: At(d.Zero(block).value, b, i) == if b == block then 0 else At(d, b, i)
  {
    forall b, i: nat ensures At(d.Zero(block).value, b, i) == if b == block then 0 else At(d, b, i) {
      WriteAt(d, block, 0, Zeros(d.blockSize), b, i);
      BeyondBlock(d, b, i);
    }
    WriteAt(d, block, 0, Zeros(d.blockSize), 0, 0);
  }

  lemma {:induction false} AttachEffect(d: Device, extents: seq<Extent>, blocks: seq<u64>, next: u64)
    requires d.blockSize > 0 && next + |blocks| < TWO64
    requires forall i :: 0 <= i < |blocks| ==> blocks[i] < d.BlockCount()
    ensures var (after, grown, r) := Attach(d, extents, blocks, next);
            && r == Ok(()) && SameShape(d, after)
            && grown == extents + Singles(blocks, next)
            && forall b, i: nat :: At(after, b, i) == if b in blocks then 0 else At(d, b, i)
    decreases |blocks|
  {
    hide At, Device.Zero, Device.BlockCount, Singles;
    if blocks == [] {
      assert extents + Singles(blocks, next) == extents;
    } else {
      ZeroAt(d, blocks[0]);
      SameBlockCount(d, d.Zero(blocks[0]).value);
      AttachEffect(d.Zero(blocks[0]).value, extents + [Extent(next, blocks[0], 1, false)], blocks[1..], next + 1);
      SinglesSplit(extents, blocks, next);
    }
  }

  lemma SameBlockCount(d: Device, e: Device)
    requires SameShape(d, e)
    ensures d.BlockCount() == e.BlockCount()
  {
  }

  lemma SinglesSplit(extents: seq<Extent>, blocks: seq<u64>, next: u64)
    requires blocks != [] && next + |blocks| < TWO64
    ensures extents + [Extent(next, blocks[0], 1, false)] + Singles(blocks[1..], next + 1) == extents + Singles(blocks, next)
    ensures forall b :: b in blocks <==> b == blocks[0] || b in blocks[1..]
  {
  }

  lemma BeyondBlock(d: Device, b: int, i: nat)
    ensures i >= d.blockSize ==> At(d, b, i) == 0
  {
  }

  lemma {:induction false} SinglesLookup(blocks: seq<u64>, next: u64, block: int)
    requires next + |blocks| < TWO64
    ensures Covered(Singles(blocks, next), block) <==> next <= block < next + |blocks|
    ensures Lookup(Singles(blocks, next), block) ==
            if next <= block < next + |blocks| then Some(blocks[block - next] as int) else None
  {
    var singles := Singles(blocks, next);
    if next <= block < next + |blocks| {
      assert singles[block - next].CoversLogical(block);
      LookupAt(singles, block - next, block);
    } else {
      LookupWitness(singles, block);
    }
  }

  predicate Distinct(blocks: seq<u64>) {
    forall i, j :: 0 <= i < j < |blocks| ==> blocks[i] != blocks[j]
  }

  lemma SinglesOwned(blocks: seq<u64>, next: u64, b: int)
    requires next + |blocks| < TWO64
    ensures b in Owned(Singles(blocks, next)) <==> b in blocks
  {
    var singles := Singles(blocks, next);
    OwnedMeans(singles, b);
    if b in blocks {
      var i :| 0 <= i < |blocks| && blocks[i] == b;
      assert singles[i].Owns(b);
    }
  }

  lemma {:induction false} SinglesCount(blocks: seq<u64>, next: u64)
    requires next + |blocks| < TWO64
    ensures PhysicalCount(Singles(blocks, next)) == |blocks|
    decreases |blocks|
  {
    if blocks != [] {
      SinglesCount(blocks[1..], next + 1);
      assert Singles(blocks, next)[1..] == Singles(blocks[1..], next + 1);
    }
  }

  // ----- Appending blocks nobody owns -----

  ghost predicate Appendable(extents: seq<Extent>, blocks: seq<u64>, next: u64, deviceBlocks: u64) {
    && next + |blocks| < TWO64 - 1
    && WellFormed(extents, deviceBlocks) && PhysicallyDisjoint(extents)
    && Distinct(blocks)
    && (forall i :: 0 <= i < |blocks| ==> blocks[i] < deviceBlocks && blocks[i] !in Owned(extents))
  }

  lemma AppendWellFormed(extents: seq<Extent>, blocks: seq<u64>, next: u64, deviceBlocks: u64)
    requires Appendable(extents, blocks, next, deviceBlocks)
    ensures WellFormed(extents + Singles(blocks, next), deviceBlocks)
    ensures PhysicallyDisjoint(extents + Singles(blocks, next))
  {
    hide Owned;
    var whole := extents + Singles(blocks, next);
    forall i | 0 <= i < |whole| ensures Sound(whole[i], deviceBlocks) {
    }
    forall i, j | 0 <= i < j < |whole| ensures Apart(whole[i], whole[j]) {
      if i < |extents| <= j {
        OwnedMeans(extents, blocks[j - |extents|]);
        assert !extents[i].Owns(blocks[j - |extents|]);
      } else if i >= |extents| {
        assert blocks[i - |extents|] != blocks[j - |extents|];
      }
    }
  }

  lemma AppendSinglesOwned(extents: seq<Extent>, blocks: seq<u64>, next: u64)
    requires next + |blocks| < TWO64
    ensures forall b :: b in Owned(extents + Singles(blocks, next)) <==> b in Owned(extents) || b in blocks
  {
    OwnedConcat(extents, Singles(blocks, next));
    forall b ensures b in Owned(Singles(blocks, next)) <==> b in blocks {
      SinglesOwned(blocks, next, b);
    }
  }

  lemma AppendLookup(extents: seq<Extent>, blocks: seq<u64>, next: u64, block: int)
    requires next + |blocks| < TWO64
    ensures Lookup(extents + Singles(blocks, next), block) ==
            if Covered(extents, block) then Lookup(extents, block)
            else if next <= block < next + |blocks| then Some(blocks[block - next] as int) else None
    ensures Covered(extents + Singles(blocks, next), block) <==> Covered(extents, block) || next <= block < next + |blocks|
  {
    LookupConcat(extents, Singles(blocks, next), block);
    CoveredConcat(extents, Singles(blocks, next), block);
    SinglesLookup(blocks, next, block);
  }

  lemma AppendDisjoint(extents: seq<Extent>, blocks: seq<u64>, next: u64, deviceBlocks: u64)
    requires Appendable(extents, blocks, next, deviceBlocks) && ExactCover(extents, next)
    ensures Disjoint(extents + Singles(blocks, next))
  {
    var whole := extents + Singles(blocks, next);
    forall i | 0 <= i < |extents| ensures extents[i].logical + extents[i].blockCount <= next {
      assert Sound(extents[i], deviceBlocks);
      assert extents[i].CoversLogical(extents[i].logical + extents[i].blockCount - 1);
      assert Covered(extents, extents[i].logical + extents[i].blockCount - 1);
    }
    forall i, j | 0 <= i < j < |whole| ensures
      whole[i].logical + whole[i].blockCount <= whole[j].logical || whole[j].logical + whole[j].blockCount <= whole[i].logical
    {
    }
  }

  /** The normal form of a file's extents with new blocks at its end. */
  ghost predicate Extended(after: seq<Extent>, extents: seq<Extent>, blocks: seq<u64>, next: u64, deviceBlocks: u64) {
    && WellFormed(after, deviceBlocks) && PhysicallyDisjoint(after) && Irreducible(after)
    && ExactCover(after, next + |blocks|)
    && (forall b :: b in Owned(after) <==> b in Owned(extents) || b in blocks)
    && (forall block: int :: Lookup(after, block) ==
          if next <= block < next + |blocks| then Some(blocks[block - next] as int) else Lookup(extents, block))
    && PhysicalCount(after) == PhysicalCount(extents) + |blocks|
  }

  lemma GrowNormalized(limits: Limits, extents: seq<Extent>, blocks: seq<u64>, next: u64, deviceBlocks: u64)
    requires Appendable(extents, blocks, next, deviceBlocks) && ExactCover(extents, next)
    requires |extents| + |blocks| <= limits.maxExtents
    ensures var n := Normalize(limits, extents + Singles(blocks, next), deviceBlocks);
            n.Ok? && Extended(n.value, extents, blocks, next, deviceBlocks)
  {
    var whole := extents + Singles(blocks, next);
    AppendWellFormed(extents, blocks, next, deviceBlocks);
    AppendDisjoint(extents, blocks, next, deviceBlocks);
    NormalizeSucceedsIff(limits, whole, deviceBlocks);
    NormalizeKeepsLayout(limits, whole, deviceBlocks);
    hide Normalize, WellFormed, PhysicallyDisjoint, Ordered, Irreducible, Disjoint, Singles, Lookup, Owned, PhysicalCount;
    var after := Normalize(limits, whole, deviceBlocks).value;
    OrderedIsDisjoint(after);
    forall block: int ensures Lookup(after, block) ==
      if next <= block < next + |blocks| then Some(blocks[block - next] as int) else Lookup(extents, block)
      ensures Covered(after, block) <==> 0 <= block < next + |blocks|
    {
      AppendLookup(extents, blocks, next, block);
      LookupUncovered(extents, block);
    }
    SameLookupSameOwned(whole, after);
    AppendSinglesOwned(extents, blocks, next);
    DisjointIsInjective(whole);
    InjectiveIsDisjoint(after, deviceBlocks);
    PhysicalCountConcat(extents, Singles(blocks, next));
    SinglesCount(blocks, next);
  }

  lemma LookupUncovered(extents: seq<Extent>, block: int)
    ensures !Covered(extents, block) ==> Lookup(extents, block) == None
  {
    LookupWitness(extents, block);
  }
}
