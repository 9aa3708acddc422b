/** Extents: the mapping from logical to physical blocks, its normal form and its checks. */
module Extents {
  import opened Base

  /** `blockCount` logical blocks from `logical` on, stored from `physical` on, or a hole. */
  datatype Extent = Extent(logical: u64, physical: u64, blockCount: u32, sparse: bool) {

    function LogicalEnd(): Result<u64> {
      var end := CheckedAdd(logical, blockCount);
      if blockCount == 0 || end.None? then Err(Overflow) else Ok(end.value)
    }

    function PhysicalEnd(): Result<u64> {
      var end := CheckedAdd(physical, blockCount);
      if sparse then Ok(0) else if blockCount == 0 || end.None? then Err(Overflow) else Ok(end.value)
    }

    predicate CoversLogical(block: int) {
      logical <= block < logical + blockCount
    }

    predicate Owns(block: int) {
      !sparse && physical <= block < physical + blockCount
    }

    /** What one extent alone answers for a logical block it covers. */
    function Target(block: int): Option<int> {
      if sparse then None else Some(physical + block - logical)
    }
  }

  datatype BlockMapping = BlockMapping(logicalBlock: u64, physicalBlock: Option<u64>, contiguousBlocks: u32)

  // ----- map -----

  /** The first extent, in list order, that covers the block decides; an uncovered block is a hole. */
  function Map(extents: seq<Extent>, logical: u64, deviceBlocks: u64): Result<BlockMapping> {
    if extents == [] then
      Ok(BlockMapping(logical, None, 1))
    else
      var e := extents[0];
      var end :- e.LogicalEnd();
      if logical < e.logical || logical >= end then
        Map(extents[1..], logical, deviceBlocks)
      else
        var relative := logical - e.logical;
        var physical := CheckedAdd(e.physical, relative);
        if e.sparse then
          Ok(BlockMapping(logical, None, e.blockCount - relative))
        else if physical.None? || physical.value >= deviceBlocks then
          Err(InvalidExtent)
        else
          Ok(BlockMapping(logical, physical, e.blockCount - relative))
  }

  method MapBlock(extents: seq<Extent>, logical: u64, deviceBlocks: u64) returns (r: Result<BlockMapping>)
    ensures r == Map(extents, logical, deviceBlocks)
  {
    var index := 0;
    while index < |extents|
      invariant 0 <= index <= |extents|
      invariant Map(extents[index..], logical, deviceBlocks) == Map(extents, logical, deviceBlocks)
    {
      var e := extents[index];
      assert extents[index..][1..] == extents[index + 1..];
      var end := e.LogicalEnd();
      if end.Err? {
        return Err(end.code);
      }
      if logical < e.logical || logical >= end.value {
        index := index + 1;
        continue;
      }
      var relative := logical - e.logical;
      var contiguous := e.blockCount - relative;
      if e.sparse {
        return Ok(BlockMapping(logical, None, contiguous));
      }
      var physical := CheckedAdd(e.physical, relative);
      if physical.None? || physical.value >= deviceBlocks {
        return Err(InvalidExtent);
      }
      return Ok(BlockMapping(logical, physical, contiguous));
    }
    return Ok(BlockMapping(logical, None, 1));
  }

  // ----- What a list of extents means -----

  /** Every extent is nonempty, ends before 2^64 logically and inside the device physically. */
  ghost predicate WellFormed(extents: seq<Extent>, deviceBlocks: u64) {
    forall i :: 0 <= i < |extents| ==> Sound(extents[i], deviceBlocks)
  }

  predicate Sound(e: Extent, deviceBlocks: u64) {
    && 0 < e.blockCount
    && e.logical + e.blockCount < TWO64
    && (!e.sparse ==> e.physical + e.blockCount <= deviceBlocks)
  }

  /** The first covering extent's answer, without bounds: `None` is a hole. */
  ghost function Lookup(extents: seq<Extent>, block: int): Option<int> {
    if extents == [] then None
    else if extents[0].CoversLogical(block) then extents[0].Target(block)
    else Lookup(extents[1..], block)
  }

  ghost predicate Covered(extents: seq<Extent>, block: int) {
    exists i :: 0 <= i < |extents| && extents[i].CoversLogical(block)
  }

  lemma {:induction false} MapIsLookup(extents: seq<Extent>, logical: u64, deviceBlocks: u64)
    requires WellFormed(extents, deviceBlocks)
    ensures Map(extents, logical, deviceBlocks).Ok?
    ensures Map(extents, logical, deviceBlocks).value.physicalBlock == Lookup(extents, logical)
  {
    if extents != [] {
      assert Sound(extents[0], deviceBlocks);
      if !extents[0].CoversLogical(logical) {
        MapIsLookup(extents[1..], logical, deviceBlocks);
      }
    }
  }

  lemma {:induction false} LookupWitness(extents: seq<Extent>, block: int)
    ensures Lookup(extents, block).Some? ==>
              exists i :: 0 <= i < |extents| && extents[i].CoversLogical(block) && !extents[i].sparse
                          && Lookup(extents, block) == extents[i].Target(block)
    ensures !Covered(extents, block) ==> Lookup(extents, block) == None
  {
    if extents != [] && !extents[0].CoversLogical(block) {
      LookupWitness(extents[1..], block);
      if Lookup(extents, block).Some? {
        var i :| 0 <= i < |extents[1..]| && extents[1..][i].CoversLogical(block) && !extents[1..][i].sparse
                 && Lookup(extents[1..], block) == extents[1..][i].Target(block);
        assert extents[i + 1].CoversLogical(block);
      }
      if !Covered(extents, block) {
        assert forall i :: 0 <= i < |extents[1..]| ==> extents[1..][i] == extents[i + 1];
        assert !Covered(extents[1..], block);
      }
    } else if extents != [] && extents[0].CoversLogical(block) {
      assert Covered(extents, block);
    }
  }

  /** Logical ranges of different extents do not meet. */
  ghost predicate Disjoint(extents: seq<Extent>) {
    forall i, j :: 0 <= i < j < |extents| ==>
      extents[i].logical + extents[i].blockCount <= extents[j].logical
      || extents[j].logical + extents[j].blockCount <= extents[i].logical
  }

  /** With disjoint ranges the order of the list does not matter. */
  lemma {:induction false} LookupAt(extents: seq<Extent>, i: nat, block: int)
    requires Disjoint(extents) && i < |extents| && extents[i].CoversLogical(block)
    ensures Lookup(extents, block) == extents[i].Target(block)
  {
    if i > 0 {
      assert !extents[0].CoversLogical(block);
      assert forall j :: 0 <= j < |extents[1..]| ==> extents[1..][j] == extents[j + 1];
      LookupAt(extents[1..], i - 1, block);
    }
  }

  lemma {:induction false} LookupConcat(left: seq<Extent>, right: seq<Extent>, block: int)
    ensures Lookup(left + right, block) == if Covered(left, block) then Lookup(left, block) else Lookup(right, block)
  {
    if left == [] {
      assert left + right == right;
    } else {
      assert (left + right)[1..] == left[1..] + right;
      if left[0].CoversLogical(block) {
        assert Covered(left, block);
      } else {
        LookupConcat(left[1..], right, block);
        assert Covered(left, block) <==> Covered(left[1..], block) by {
          if Covered(left, block) {
            var i :| 0 <= i < |left| && left[i].CoversLogical(block);
            assert left[1..][i - 1].CoversLogical(block);
          }
          if Covered(left[1..], block) {
            var i :| 0 <= i < |left[1..]| && left[1..][i].CoversLogical(block);
            assert left[i + 1].CoversLogical(block);
          }
        }
      }
    }
  }

  /** Physical blocks an extent list takes, counted with repetition. */
  function PhysicalCount(extents: seq<Extent>): nat {
    if extents == [] then 0
    else (if extents[0].sparse then 0 else extents[0].blockCount) + PhysicalCount(extents[1..])
  }

  lemma {:induction false} PhysicalCountConcat(left: seq<Extent>, right: seq<Extent>)
    ensures PhysicalCount(left + right) == PhysicalCount(left) + PhysicalCount(right)
  {
    if left == [] {
      assert left + right == right;
    } else {
      assert (left + right)[1..] == left[1..] + right;
      PhysicalCountConcat(left[1..], right);
    }
  }

  // ----- normalize -----

  /** `std::sort` by logical block, written as an insertion sort. */
  function Insert(e: Extent, sorted: seq<Extent>): seq<Extent> {
    if sorted == [] || e.logical <= sorted[0].logical then [e] + sorted
    else [sorted[0]] + Insert(e, sorted[1..])
  }

  function Sort(extents: seq<Extent>): (sorted: seq<Extent>)
    ensures |sorted| == |extents|
  {
    if extents == [] then [] else InsertLength(extents[0], Sort(extents[1..])); Insert(extents[0], Sort(extents[1..]))
  }

  lemma {:induction false} InsertLength(e: Extent, sorted: seq<Extent>)
    ensures |Insert(e, sorted)| == |sorted| + 1
  {
    if sorted != [] && e.logical > sorted[0].logical {
      InsertLength(e, sorted[1..]);
    }
  }

  predicate Mergeable(previous: Extent, e: Extent) {
    && e.logical == previous.logical + previous.blockCount
    && previous.sparse == e.sparse
    && (previous.sparse || e.physical == previous.physical + previous.blockCount)
    && previous.blockCount + e.blockCount < TWO32
  }

  /** One extent of the sorted list against the list built so far. */
  function NormalizeStep(normalized: seq<Extent>, e: Extent, deviceBlocks: u64): Result<seq<Extent>> {
    if e.blockCount == 0 then
      Err(InvalidExtent)
    else
      var _ :- e.LogicalEnd();
      var physicalEnd :- e.PhysicalEnd();
      if !e.sparse && physicalEnd > deviceBlocks then
        Err(InvalidExtent)
      else if normalized == [] then
        Ok(normalized + [e])
      else
        var last := |normalized| - 1;
        var previous := normalized[last];
        if e.logical < previous.logical + previous.blockCount then
          Err(InvalidExtent)
        else if Mergeable(previous, e) then
          Ok(normalized[last := previous.(blockCount := previous.blockCount + e.blockCount)])
        else
          Ok(normalized + [e])
  }

  function NormalizeFrom(normalized: seq<Extent>, rest: seq<Extent>, deviceBlocks: u64): Result<seq<Extent>>
    decreases |rest|
  {
    if rest == [] then
      Ok(normalized)
    else
      var next :- NormalizeStep(normalized, rest[0], deviceBlocks);
      NormalizeFrom(next, rest[1..], deviceBlocks)
  }

  function Normalize(limits: Limits, extents: seq<Extent>, deviceBlocks: u64): Result<seq<Extent>> {
    if |extents| > limits.maxExtents then Err(ResourceLimit) else NormalizeFrom([], Sort(extents), deviceBlocks)
  }

  /** The caller's vector after the call: replaced on success, possibly left sorted on failure. */
  function AfterNormalize(limits: Limits, extents: seq<Extent>, deviceBlocks: u64): seq<Extent> {
    if |extents| > limits.maxExtents then
      extents
    else
      match NormalizeFrom([], Sort(extents), deviceBlocks)
      case Ok(normalized) => normalized
      case Err(_) => Sort(extents)
  }

  method NormalizeExtents(limits: Limits, extents: seq<Extent>, deviceBlocks: u64)
    returns (r: Result<()>, after: seq<Extent>)
    ensures r.Ok? <==> Normalize(limits, extents, deviceBlocks).Ok?
    ensures r.Err? ==> Normalize(limits, extents, deviceBlocks) == Err(r.code)
    ensures after == AfterNormalize(limits, extents, deviceBlocks)
  {
    if |extents| > limits.maxExtents {
      return Err(ResourceLimit), extents;
    }
    var sorted := Sort(extents);
    var normalized: seq<Extent> := [];
    var index := 0;
    while index < |sorted|
      invariant 0 <= index <= |sorted|
      invariant NormalizeFrom(normalized, sorted[index..], deviceBlocks) == NormalizeFrom([], sorted, deviceBlocks)
    {
      var e := sorted[index];
      ghost var next := NormalizeStep(normalized, e, deviceBlocks);
      assert sorted[index..][1..] == sorted[index + 1..];
      index := index + 1;
      if e.blockCount == 0 {
        return Err(InvalidExtent), sorted;
      }
      var logicalEnd := e.LogicalEnd();
      if logicalEnd.Err? {
        return Err(logicalEnd.code), sorted;
      }
      if !e.sparse {
        var physicalEnd := e.PhysicalEnd();
        if physicalEnd.Err? {
          return Err(physicalEnd.code), sorted;
        }
        if physicalEnd.value > deviceBlocks {
          return Err(InvalidExtent), sorted;
        }
      }
      if normalized != [] {
        var last := |normalized| - 1;
        var previous := normalized[last];
        var previousEnd := previous.logical + previous.blockCount;
        if e.logical < previousEnd {
          return Err(InvalidExtent), sorted;
        }
        var adjacentLogical := e.logical == previousEnd;
        var adjacentPhysical := previous.sparse || e.physical == previous.physical + previous.blockCount;
        if adjacentLogical && previous.sparse == e.sparse && adjacentPhysical {
          var joined := previous.blockCount + e.blockCount;
          if joined < TWO32 {
            normalized := normalized[last := previous.(blockCount := joined)];
            assert next == Ok(normalized);
            continue;
          }
        }
      }
      normalized := normalized + [e];
      assert next == Ok(normalized);
    }
    return Ok(()), normalized;
  }

  // ----- What normalize guarantees -----

  /** Sorted with every extent ending before the next begins. */
  ghost predicate Ordered(extents: seq<Extent>) {
    forall i, j :: 0 <= i < j < |extents| ==> extents[i].logical + extents[i].blockCount <= extents[j].logical
  }

  /** No neighbours that could still be one extent. */
  ghost predicate Irreducible(extents: seq<Extent>) {
    forall i :: 0 < i < |extents| ==> !Mergeable(extents[i - 1], extents[i])
  }

  /** Two lists describe the same file layout. */
  ghost predicate SameLayout(left: seq<Extent>, right: seq<Extent>) {
    && (forall block :: Lookup(left, block) == Lookup(right, block))
    && (forall block :: Covered(left, block) <==> Covered(right, block))
    && PhysicalCount(left) == PhysicalCount(right)
  }

  lemma AppendLayout(left: seq<Extent>, right: seq<Extent>, e: Extent)
    requires SameLayout(left, right)
    ensures SameLayout(left + [e], right + [e])
  {
    PhysicalCountConcat(left, [e]);
    PhysicalCountConcat(right, [e]);
    forall block ensures Lookup(left + [e], block) == Lookup(right + [e], block)
      ensures Covered(left + [e], block) <==> Covered(right + [e], block)
    {
      LookupConcat(left, [e], block);
      LookupConcat(right, [e], block);
      CoveredConcat(left, [e], block);
      CoveredConcat(right, [e], block);
    }
  }

  lemma CoveredConcat(left: seq<Extent>, right: seq<Extent>, block: int)
    ensures Covered(left + right, block) <==> Covered(left, block) || Covered(right, block)
  {
    if Covered(left, block) {
      var i :| 0 <= i < |left| && left[i].CoversLogical(block);
      assert (left + right)[i].CoversLogical(block);
    }
    if Covered(right, block) {
      var i :| 0 <= i < |right| && right[i].CoversLogical(block);
      assert (left + right)[|left| + i].CoversLogical(block);
    }
    if Covered(left + right, block) {
      var i :| 0 <= i < |left + right| && (left + right)[i].CoversLogical(block);
      if i < |left| {
        assert left[i].CoversLogical(block);
      } else {
        assert right[i - |left|].CoversLogical(block);
      }
    }
  }

  /** Two neighbours merged into one describe the same layout as the two. */
  lemma MergeLayout(front: seq<Extent>, previous: Extent, e: Extent)
    requires Mergeable(previous, e)
    ensures SameLayout(front + [previous.(blockCount := previous.blockCount + e.blockCount)], front + [previous, e])
  {
    var merged := previous.(blockCount := previous.blockCount + e.blockCount);
    PhysicalCountConcat(front, [merged]);
    PhysicalCountConcat(front, [previous, e]);
    PhysicalCountConcat([previous], [e]);
    assert [previous, e] == [previous] + [e];
    forall block ensures Lookup([merged], block) == Lookup([previous, e], block)
      ensures Covered([merged], block) <==> Covered([previous, e], block)
    {
      TwoExtents(previous, e, block);
      OneExtent(merged, block);
    }
    forall block ensures Lookup(front + [merged], block) == Lookup(front + [previous, e], block)
      ensures Covered(front + [merged], block) <==> Covered(front + [previous, e], block)
    {
      LookupConcat(front, [merged], block);
      LookupConcat(front, [previous, e], block);
      CoveredConcat(front, [merged], block);
      CoveredConcat(front, [previous, e], block);
    }
  }

  lemma OneExtent(e: Extent, block: int)
    ensures Lookup([e], block) == if e.CoversLogical(block) then e.Target(block) else None
    ensures Covered([e], block) <==> e.CoversLogical(block)
  {
    assert [e][1..] == [];
    assert [e][0] == e;
  }

  lemma TwoExtents(p: Extent, e: Extent, block: int)
    ensures Lookup([p, e], block) ==
            if p.CoversLogical(block) then p.Target(block) else if e.CoversLogical(block) then e.Target(block) else None
    ensures Covered([p, e], block) <==> p.CoversLogical(block) || e.CoversLogical(block)
  {
    assert [p, e][1..] == [e] && [p, e][0] == p && [p, e][1] == e;
    OneExtent(e, block);
  }

  /** The loop invariant of normalize: what the list built so far owes the extents consumed. */
  ghost predicate Built(normalized: seq<Extent>, consumed: seq<Extent>, deviceBlocks: u64) {
    && WellFormed(normalized, deviceBlocks)
    && Ordered(normalized)
    && Irreducible(normalized)
    && SameLayout(normalized, consumed)
    && |normalized| <= |consumed|
    && WellFormed(consumed, deviceBlocks)
    && Ordered(consumed)
    && ((normalized == []) <==> (consumed == []))
    && (consumed != [] ==> End(normalized) == End(consumed))
  }

  ghost function End(extents: seq<Extent>): int
    requires extents != []
  {
    extents[|extents| - 1].logical + extents[|extents| - 1].blockCount
  }

  lemma StepKeepsBuilt(normalized: seq<Extent>, consumed: seq<Extent>, e: Extent, deviceBlocks: u64)
    requires Built(normalized, consumed, deviceBlocks)
    requires NormalizeStep(normalized, e, deviceBlocks).Ok?
    ensures Built(NormalizeStep(normalized, e, deviceBlocks).value, consumed + [e], deviceBlocks)
  {
    assert Sound(e, deviceBlocks);
    if normalized != [] && Mergeable(normalized[|normalized| - 1], e) {
      MergeKeepsBuilt(normalized, consumed, e, deviceBlocks);
    } else {
      hide SameLayout, Irreducible, Ordered, WellFormed;
      PushKeepsBuilt(normalized, consumed, e, deviceBlocks);
    }
  }

  lemma PushKeepsBuilt(normalized: seq<Extent>, consumed: seq<Extent>, e: Extent, deviceBlocks: u64)
    requires Built(normalized, consumed, deviceBlocks) && Sound(e, deviceBlocks)
    requires normalized != [] ==> End(normalized) <= e.logical && !Mergeable(normalized[|normalized| - 1], e)
    ensures Built(normalized + [e], consumed + [e], deviceBlocks)
  {
    hide SameLayout, Ordered;
    assert forall i :: 0 <= i < |normalized| ==> Sound(normalized[i], deviceBlocks);
    AppendOrdered(consumed, e);
    AppendLayout(normalized, consumed, e);
    AppendOrdered(normalized, e);
  }

  lemma MergeKeepsBuilt(normalized: seq<Extent>, consumed: seq<Extent>, e: Extent, deviceBlocks: u64)
    requires Built(normalized, consumed, deviceBlocks) && Sound(e, deviceBlocks)
    requires normalized != [] && Mergeable(normalized[|normalized| - 1], e)
    ensures var last := |normalized| - 1;
            Built(normalized[last := normalized[last].(blockCount := normalized[last].blockCount + e.blockCount)],
                  consumed + [e], deviceBlocks)
  {
    hide SameLayout, Irreducible, Ordered;
    var front := normalized[..|normalized| - 1];
    var previous := normalized[|normalized| - 1];
    var next := front + [previous.(blockCount := previous.blockCount + e.blockCount)];
    assert next == normalized[|normalized| - 1 := previous.(blockCount := previous.blockCount + e.blockCount)];
    MergeLayout(front, previous, e);
    assert normalized + [e] == front + [previous, e];
    AppendLayout(normalized, consumed, e);
    SameLayoutChain(next, normalized + [e], consumed + [e]);
    MergeKeepsForm(normalized, e, deviceBlocks);
    AppendOrdered(consumed, e);
  }

  lemma SameLayoutChain(a: seq<Extent>, b: seq<Extent>, c: seq<Extent>)
    requires SameLayout(a, b) && SameLayout(b, c)
    ensures SameLayout(a, c)
  {
  }

  /** Growing the last extent keeps the list ordered and irreducible. */
  lemma MergeKeepsForm(normalized: seq<Extent>, e: Extent, deviceBlocks: u64)
    requires WellFormed(normalized, deviceBlocks) && Ordered(normalized) && Irreducible(normalized)
    requires Sound(e, deviceBlocks) && normalized != [] && Mergeable(normalized[|normalized| - 1], e)
    ensures var last := |normalized| - 1;
            var next := normalized[last := normalized[last].(blockCount := normalized[last].blockCount + e.blockCount)];
            WellFormed(next, deviceBlocks) && Ordered(next) && Irreducible(next)
  {
    var last := |normalized| - 1;
    var merged := normalized[last].(blockCount := normalized[last].blockCount + e.blockCount);
    assert Sound(normalized[last], deviceBlocks);
    assert Sound(merged, deviceBlocks);
    if last > 0 {
      assert !Mergeable(normalized[last - 1], normalized[last]);
      assert !Mergeable(normalized[last - 1], merged);
    }
  }

  lemma AppendOrdered(extents: seq<Extent>, e: Extent)
    requires Ordered(extents)
    requires forall i :: 0 <= i < |extents| ==> 0 < extents[i].blockCount
    requires extents != [] ==> End(extents) <= e.logical
    ensures Ordered(extents + [e])
  {
    forall i | 0 <= i < |extents| ensures extents[i].logical + extents[i].blockCount <= e.logical {
      if i < |extents| - 1 {
        assert extents[i].logical + extents[i].blockCount <= extents[|extents| - 1].logical;
      }
    }
  }

  lemma {:induction false} FromKeepsBuilt(normalized: seq<Extent>, consumed: seq<Extent>, rest: seq<Extent>, deviceBlocks: u64)
    requires Built(normalized, consumed, deviceBlocks)
    requires NormalizeFrom(normalized, rest, deviceBlocks).Ok?
    ensures Built(NormalizeFrom(normalized, rest, deviceBlocks).value, consumed + rest, deviceBlocks)
    decreases |rest|
  {
    hide Built, NormalizeStep;
    if rest == [] {
      assert consumed + rest == consumed;
    } else {
      var next := NormalizeStep(normalized, rest[0], deviceBlocks).value;
      StepKeepsBuilt(normalized, consumed, rest[0], deviceBlocks);
      FromKeepsBuilt(next, consumed + [rest[0]], rest[1..], deviceBlocks);
      assert consumed + [rest[0]] + rest[1..] == consumed + rest;
    }
  }

  lemma {:induction false} InsertSplits(e: Extent, sorted: seq<Extent>) returns (k: nat)
    ensures k <= |sorted| && Insert(e, sorted) == sorted[..k] + [e] + sorted[k..]
    ensures forall i :: 0 <= i < k ==> sorted[i].logical < e.logical
    ensures k < |sorted| ==> e.logical <= sorted[k].logical
  {
    if sorted == [] || e.logical <= sorted[0].logical {
      return 0;
    } else {
      var j := InsertSplits(e, sorted[1..]);
      k := j + 1;
      assert sorted[..k] == [sorted[0]] + sorted[1..][..j];
      assert sorted[k..] == sorted[1..][j..];
    }
  }

  ghost predicate SortedByLogical(extents: seq<Extent>) {
    forall i, j :: 0 <= i < j < |extents| ==> extents[i].logical <= extents[j].logical
  }

  lemma InsertSorts(e: Extent, sorted: seq<Extent>)
    requires SortedByLogical(sorted)
    ensures SortedByLogical(Insert(e, sorted))
    ensures multiset(Insert(e, sorted)) == multiset([e] + sorted)
  {
    hide Insert;
    var k := InsertSplits(e, sorted);
    assert sorted == sorted[..k] + sorted[k..];
    MiddleSorts(sorted[..k], e, sorted[k..]);
    SameBag(sorted[..k], e, sorted[k..]);
  }

  lemma MiddleSorts(left: seq<Extent>, e: Extent, right: seq<Extent>)
    requires SortedByLogical(left + right)
    requires forall i :: 0 <= i < |left| ==> left[i].logical < e.logical
    requires right != [] ==> e.logical <= right[0].logical
    ensures SortedByLogical(left + [e] + right)
  {
    var whole, result := left + right, left + [e] + right;
    forall i, j | 0 <= i < j < |result| ensures result[i].logical <= result[j].logical {
      if j == |left| {
        assert result[i] == left[i];
      } else if i == |left| {
        assert result[j] == whole[j - 1] && whole[|left|] == right[0];
      } else {
        assert result[i] == whole[if i < |left| then i else i - 1];
        assert result[j] == whole[if j < |left| then j else j - 1];
      }
    }
  }

  lemma SameBag(left: seq<Extent>, e: Extent, right: seq<Extent>)
    ensures multiset(left + [e] + right) == multiset([e] + (left + right))
  {
  }

  lemma {:induction false} SortSorts(extents: seq<Extent>)
    ensures SortedByLogical(Sort(extents))
    ensures multiset(Sort(extents)) == multiset(extents)
  {
    hide Insert;
    if extents != [] {
      SortSorts(extents[1..]);
      InsertSorts(extents[0], Sort(extents[1..]));
      SamePrepend(extents[0], Sort(extents[1..]), extents[1..]);
      assert extents == [extents[0]] + extents[1..];
    }
  }

  lemma SamePrepend(e: Extent, left: seq<Extent>, right: seq<Extent>)
    requires multiset(left) == multiset(right)
    ensures multiset([e] + left) == multiset([e] + right)
  {
  }

  /** Moving one extent inside a list with disjoint ranges changes nothing it describes. */
  lemma MoveKeepsLayout(left: seq<Extent>, e: Extent, right: seq<Extent>)
    requires Disjoint(left + [e] + right)
    ensures Disjoint([e] + (left + right))
    ensures SameLayout(left + [e] + right, [e] + (left + right))
  {
    var moved := left + [e] + right;
    var whole := [e] + (left + right);
    forall i, j | 0 <= i < j < |whole| ensures
      whole[i].logical + whole[i].blockCount <= whole[j].logical
      || whole[j].logical + whole[j].blockCount <= whole[i].logical
    {
      var i' := if i == 0 then |left| else if i <= |left| then i - 1 else i;
      var j' := if j <= |left| then j - 1 else j;
      assert moved[i'] == whole[i] && moved[j'] == whole[j];
    }
    PhysicalCountConcat(left + [e], right);
    PhysicalCountConcat(left, [e]);
    PhysicalCountConcat([e], left + right);
    PhysicalCountConcat(left, right);
    forall block ensures Lookup(moved, block) == Lookup(whole, block)
      ensures Covered(moved, block) <==> Covered(whole, block)
    {
      MoveKeepsBlock(left, e, right, block);
    }
  }

  lemma MoveKeepsBlock(left: seq<Extent>, e: Extent, right: seq<Extent>, block: int)
    requires Disjoint(left + [e] + right)
    ensures Lookup(left + [e] + right, block) == Lookup([e] + (left + right), block)
    ensures Covered(left + [e] + right, block) <==> Covered([e] + (left + right), block)
  {
    hide Lookup;
    var moved := left + [e] + right;
    LookupConcat(left + [e], right, block);
    LookupConcat(left, [e], block);
    LookupConcat([e], left + right, block);
    LookupConcat(left, right, block);
    CoveredConcat(left + [e], right, block);
    CoveredConcat(left, [e], block);
    CoveredConcat([e], left + right, block);
    CoveredConcat(left, right, block);
    OneExtent(e, block);
    if Covered(left, block) {
      var i :| 0 <= i < |left| && left[i].CoversLogical(block);
      assert moved[i] == left[i] && moved[|left|] == e;
      assert !e.CoversLogical(block);
    }
  }

  lemma DisjointTail(extents: seq<Extent>)
    requires extents != [] && Disjoint(extents)
    ensures Disjoint(extents[1..])
  {
    assert forall i :: 0 <= i < |extents[1..]| ==> extents[1..][i] == extents[i + 1];
  }

  lemma PrependDisjoint(e: Extent, left: seq<Extent>, right: seq<Extent>)
    requires multiset(left) == multiset(right)
    requires Disjoint([e] + left) && Disjoint(right)
    ensures Disjoint([e] + right)
  {
    forall j | 0 <= j < |right| ensures
      e.logical + e.blockCount <= right[j].logical || right[j].logical + right[j].blockCount <= e.logical
    {
      assert right[j] in multiset(right);
      assert right[j] in left;
      var i :| 0 <= i < |left| && left[i] == right[j];
      assert ([e] + left)[0] == e && ([e] + left)[i + 1] == left[i];
    }
  }

  lemma PrependLayout(e: Extent, left: seq<Extent>, right: seq<Extent>)
    requires SameLayout(left, right)
    ensures SameLayout([e] + left, [e] + right)
  {
    PhysicalCountConcat([e], left);
    PhysicalCountConcat([e], right);
    forall block ensures Lookup([e] + left, block) == Lookup([e] + right, block)
      ensures Covered([e] + left, block) <==> Covered([e] + right, block)
    {
      LookupConcat([e], left, block);
      LookupConcat([e], right, block);
      CoveredConcat([e], left, block);
      CoveredConcat([e], right, block);
    }
  }

  lemma InsertLayout(e: Extent, tail: seq<Extent>)
    requires Disjoint(Insert(e, tail))
    ensures Disjoint([e] + tail) && Disjoint(tail)
    ensures SameLayout(Insert(e, tail), [e] + tail)
  {
    hide SameLayout, Disjoint, Insert;
    var k := InsertSplits(e, tail);
    assert tail == tail[..k] + tail[k..];
    MoveKeepsLayout(tail[..k], e, tail[k..]);
    DisjointTail([e] + tail);
    assert ([e] + tail)[1..] == tail;
  }

  /** Sorting disjoint extents keeps the layout. */
  lemma {:induction false} SortLayout(extents: seq<Extent>)
    requires Disjoint(Sort(extents))
    ensures Disjoint(extents)
    ensures SameLayout(extents, Sort(extents))
  {
    hide SameLayout, Disjoint, Insert;
    if extents == [] {
      assert Sort(extents) == extents;
      SameLayoutReflexive(extents);
    } else {
      var e, tail := extents[0], Sort(extents[1..]);
      InsertLayout(e, tail);
      SortLayout(extents[1..]);
      SortSorts(extents[1..]);
      PrependDisjoint(e, tail, extents[1..]);
      PrependLayout(e, extents[1..], tail);
      assert extents == [e] + extents[1..];
      SameLayoutTransitive(extents, [e] + tail, Sort(extents));
    }
  }

  lemma SameLayoutReflexive(a: seq<Extent>)
    ensures SameLayout(a, a)
  {
  }

  /** `a` like `b`, and `c` like `b`, so `a` like `c`. */
  lemma SameLayoutTransitive(a: seq<Extent>, b: seq<Extent>, c: seq<Extent>)
    requires SameLayout(a, b) && SameLayout(c, b)
    ensures SameLayout(a, c)
  {
  }

  lemma OrderedIsDisjoint(extents: seq<Extent>)
    requires Ordered(extents)
    ensures Disjoint(extents)
  {
  }

  lemma DisjointSortedIsOrdered(extents: seq<Extent>)
    requires Disjoint(extents) && SortedByLogical(extents)
    requires forall i :: 0 <= i < |extents| ==> 0 < extents[i].blockCount
    ensures Ordered(extents)
  {
  }

  lemma {:induction false} SortKeepsDisjoint(extents: seq<Extent>)
    requires Disjoint(extents)
    ensures Disjoint(Sort(extents))
  {
    hide Disjoint;
    if extents == [] {
      assert Sort(extents) == extents;
    } else {
      var e, tail := extents[0], Sort(extents[1..]);
      DisjointTail(extents);
      SortKeepsDisjoint(extents[1..]);
      SortSorts(extents[1..]);
      assert extents == [e] + extents[1..];
      PrependDisjoint(e, extents[1..], tail);
      var k := InsertSplits(e, tail);
      assert tail == tail[..k] + tail[k..];
      InsertKeepsDisjoint(tail[..k], e, tail[k..]);
    }
  }

  lemma InsertKeepsDisjoint(left: seq<Extent>, e: Extent, right: seq<Extent>)
    requires Disjoint([e] + (left + right))
    ensures Disjoint(left + [e] + right)
  {
    var moved := left + [e] + right;
    var whole := [e] + (left + right);
    forall i, j | 0 <= i < j < |moved| ensures
      moved[i].logical + moved[i].blockCount <= moved[j].logical
      || moved[j].logical + moved[j].blockCount <= moved[i].logical
    {
      var i' := if i < |left| then i + 1 else if i == |left| then 0 else i;
      var j' := if j < |left| then j + 1 else if j == |left| then 0 else j;
      assert whole[i'] == moved[i] && whole[j'] == moved[j];
    }
  }

  lemma WellFormedPermutes(left: seq<Extent>, right: seq<Extent>, deviceBlocks: u64)
    requires multiset(left) == multiset(right) && WellFormed(left, deviceBlocks)
    ensures WellFormed(right, deviceBlocks)
  {
    forall i | 0 <= i < |right| ensures Sound(right[i], deviceBlocks) {
      assert right[i] in multiset(right);
      assert right[i] in left;
    }
  }

  /** A sorted list of sound extents that do not meet is always accepted. */
  lemma {:induction false} FromSucceeds(normalized: seq<Extent>, rest: seq<Extent>, deviceBlocks: u64)
    requires WellFormed(rest, deviceBlocks) && Ordered(rest)
    requires normalized != [] && rest != [] ==> End(normalized) <= rest[0].logical
    ensures NormalizeFrom(normalized, rest, deviceBlocks).Ok?
    decreases |rest|
  {
    if rest != [] {
      var e := rest[0];
      assert Sound(e, deviceBlocks);
      var next := NormalizeStep(normalized, e, deviceBlocks).value;
      assert forall i :: 0 <= i < |rest[1..]| ==> rest[1..][i] == rest[i + 1];
      assert End(next) == e.logical + e.blockCount;
      FromSucceeds(next, rest[1..], deviceBlocks);
    }
  }

  lemma BuiltFromNothing(extents: seq<Extent>, deviceBlocks: u64)
    requires NormalizeFrom([], extents, deviceBlocks).Ok?
    ensures Built(NormalizeFrom([], extents, deviceBlocks).value, extents, deviceBlocks)
  {
    FromKeepsBuilt([], [], extents, deviceBlocks);
    assert [] + extents == extents;
  }

  lemma BuiltMeans(normalized: seq<Extent>, consumed: seq<Extent>, deviceBlocks: u64)
    requires Built(normalized, consumed, deviceBlocks)
    ensures WellFormed(normalized, deviceBlocks) && Ordered(normalized) && Irreducible(normalized)
    ensures SameLayout(normalized, consumed) && |normalized| <= |consumed|
    ensures WellFormed(consumed, deviceBlocks) && Ordered(consumed) && Disjoint(consumed)
  {
    OrderedIsDisjoint(consumed);
  }

  lemma SoundSortedSucceeds(extents: seq<Extent>, deviceBlocks: u64)
    requires WellFormed(extents, deviceBlocks) && Disjoint(extents) && SortedByLogical(extents)
    ensures NormalizeFrom([], extents, deviceBlocks).Ok?
  {
    assert forall i :: 0 <= i < |extents| ==> Sound(extents[i], deviceBlocks);
    DisjointSortedIsOrdered(extents);
    FromSucceeds([], extents, deviceBlocks);
  }

  /** normalize accepts exactly the lists, within the limit, of sound extents that do not meet. */
  lemma NormalizeSucceedsIff(limits: Limits, extents: seq<Extent>, deviceBlocks: u64)
    ensures Normalize(limits, extents, deviceBlocks).Ok? <==>
            |extents| <= limits.maxExtents && WellFormed(extents, deviceBlocks) && Disjoint(extents)
  {
    hide Built, WellFormed, Disjoint, SortedByLogical, Ordered, Irreducible, SameLayout, NormalizeFrom, Sort;
    if |extents| <= limits.maxExtents {
      SortSorts(extents);
      if NormalizeFrom([], Sort(extents), deviceBlocks).Ok? {
        BuiltFromNothing(Sort(extents), deviceBlocks);
        BuiltMeans(NormalizeFrom([], Sort(extents), deviceBlocks).value, Sort(extents), deviceBlocks);
        SortLayout(extents);
        WellFormedPermutes(Sort(extents), extents, deviceBlocks);
      }
      if WellFormed(extents, deviceBlocks) && Disjoint(extents) {
        SortKeepsDisjoint(extents);
        WellFormedPermutes(extents, Sort(extents), deviceBlocks);
        SoundSortedSucceeds(Sort(extents), deviceBlocks);
      }
    }
  }

  /** On success the list is sorted, disjoint, fully merged and describes the same file. */
  lemma NormalizeKeepsLayout(limits: Limits, extents: seq<Extent>, deviceBlocks: u64)
    requires Normalize(limits, extents, deviceBlocks).Ok?
    ensures var n := Normalize(limits, extents, deviceBlocks).value;
            && Ordered(n) && WellFormed(n, deviceBlocks) && Irreducible(n)
            && |n| <= |extents|
            && SameLayout(extents, n)
  {
    hide Built, WellFormed, Disjoint, Ordered, Irreducible, NormalizeFrom, Sort, Lookup, Covered, PhysicalCount;
    BuiltFromNothing(Sort(extents), deviceBlocks);
    BuiltMeans(NormalizeFrom([], Sort(extents), deviceBlocks).value, Sort(extents), deviceBlocks);
    SortLayout(extents);
  }

  lemma {:induction false} SortOfSorted(extents: seq<Extent>)
    requires SortedByLogical(extents)
    ensures Sort(extents) == extents
  {
    if extents != [] {
      assert forall i :: 0 <= i < |extents[1..]| ==> extents[1..][i] == extents[i + 1];
      SortOfSorted(extents[1..]);
    }
  }

  lemma {:induction false} FromOfNormal(normalized: seq<Extent>, rest: seq<Extent>, deviceBlocks: u64)
    requires WellFormed(normalized + rest, deviceBlocks)
    requires Ordered(normalized + rest) && Irreducible(normalized + rest)
    ensures NormalizeFrom(normalized, rest, deviceBlocks) == Ok(normalized + rest)
    decreases |rest|
  {
    if rest == [] {
      assert normalized + rest == normalized;
    } else {
      var whole, n := normalized + rest, |normalized|;
      assert whole[n] == rest[0] && Sound(whole[n], deviceBlocks);
      if n > 0 {
        assert whole[n - 1] == normalized[n - 1];
        assert !Mergeable(whole[n - 1], whole[n]);
      }
      assert NormalizeStep(normalized, rest[0], deviceBlocks) == Ok(normalized + [rest[0]]);
      assert normalized + [rest[0]] + rest[1..] == whole;
      FromOfNormal(normalized + [rest[0]], rest[1..], deviceBlocks);
    }
  }

  /** A list in normal form is left alone, also where a merge was refused for its 32-bit count. */
  lemma NormalFormIsFixed(limits: Limits, extents: seq<Extent>, deviceBlocks: u64)
    requires |extents| <= limits.maxExtents
    requires WellFormed(extents, deviceBlocks) && Ordered(extents) && Irreducible(extents)
    ensures Normalize(limits, extents, deviceBlocks) == Ok(extents)
  {
    SortOfSorted(extents);
    assert [] + extents == extents;
    FromOfNormal([], extents, deviceBlocks);
  }

  lemma NormalizeIdempotent(limits: Limits, extents: seq<Extent>, deviceBlocks: u64)
    requires Normalize(limits, extents, deviceBlocks).Ok?
    ensures var n := Normalize(limits, extents, deviceBlocks).value;
            Normalize(limits, n, deviceBlocks) == Ok(n)
  {
    var n := Normalize(limits, extents, deviceBlocks).value;
    NormalizeKeepsLayout(limits, extents, deviceBlocks);
    NormalFormIsFixed(limits, n, deviceBlocks);
  }
}
