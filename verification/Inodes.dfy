/** The superblock, inodes with their validation, and the inode table. */
module Inodes {
  import opened Base
  import opened Extents

  datatype Superblock = Superblock(
    version: u32,
    blockSize: u32,
    blockCount: u64,
    inodeCount: u64,
    freeBlockCount: u64,
    freeInodeCount: u64,
    rootInode: u64,
    generation: u64,
    journalSequence: u64
  ) {
    function Validate(imageSize: u64, limits: Limits): Result<()> {
      var expected := CheckedMultiply(blockCount, blockSize);
      if version != 1 then Err(InvalidVersion)
      else if blockSize < limits.minBlockSize || blockSize > limits.maxBlockSize || !PowerOfTwo(blockSize) then
        Err(InvalidBlock)
      else if blockCount == 0 || blockCount > limits.maxBlocks then Err(ResourceLimit)
      else if expected.None? || expected.value > limits.maxImageBytes || expected.value != imageSize then Err(Overflow)
      else if inodeCount > limits.maxInodes || freeInodeCount > limits.maxInodes - inodeCount then Err(ResourceLimit)
      else if freeBlockCount > blockCount then Err(InvalidBlock)
      else if rootInode == 0 || rootInode > limits.maxInodes then Err(InvalidInode)
      else Ok(())
    }
  }

  /** `OtherType` is a type byte no inode may have. */
  datatype InodeType = Unused | Regular | Directory | SymbolicLink | OtherType(other: byte) {
    predicate Usable() {
      Regular? || Directory? || SymbolicLink?
    }

    function Code(): byte {
      match this
      case Unused => 0
      case Regular => 1
      case Directory => 2
      case SymbolicLink => 3
      case OtherType(other) => other
    }

    static function FromCode(code: byte): (t: InodeType)
      ensures t.Code() == code
    {
      if code == 0 then Unused else if code == 1 then Regular else if code == 2 then Directory
      else if code == 3 then SymbolicLink else OtherType(code)
    }
  }

  datatype ExtendedAttribute = ExtendedAttribute(name: text, value: seq<byte>)

  datatype Inode = Inode(
    identifier: u64,
    inodeType: InodeType,
    mode: u16,
    owner: u32,
    group: u32,
    linkCount: u32,
    size: u64,
    allocatedBytes: u64,
    createdTime: u64,
    modifiedTime: u64,
    changedTime: u64,
    generation: u64,
    extents: seq<Extent>,
    symlinkTarget: text,
    attributes: seq<ExtendedAttribute>,
    deleted: bool
  ) {
    function Validate(superblock: Superblock, limits: Limits): Result<()>
      requires superblock.blockSize > 0
    {
      if identifier == 0 || identifier > limits.maxInodes then Err(InvalidInode)
      else if !inodeType.Usable() then Err(InvalidInode)
      else if linkCount == 0 || linkCount > limits.maxHardLinks then Err(InvalidInode)
      else if size > limits.maxFileBytes || allocatedBytes > limits.maxFileBytes then Err(ResourceLimit)
      else if |extents| > limits.maxExtents then Err(ResourceLimit)
      else if inodeType == SymbolicLink && (symlinkTarget == [] || |symlinkTarget| > limits.maxPathBytes) then
        Err(InvalidPath)
      else if inodeType != SymbolicLink && symlinkTarget != [] then Err(InvalidInode)
      else
        var _ :- AttributesFit(attributes, {}, 0, limits);
        VerifyExtents(extents, size, allocatedBytes, superblock, limits)
    }
  }

  /** Attribute names are distinct, named within limits, and together fit the byte budget. An
      overflowing sum is the same error as an exceeded budget. */
  function AttributesFit(attributes: seq<ExtendedAttribute>, names: set<text>, used: nat, limits: Limits): Result<()> {
    if attributes == [] then
      Ok(())
    else
      var a := attributes[0];
      if a.name == [] || |a.name| > limits.maxNameBytes || a.name in names then Err(InvalidName)
      else if used + |a.name| + |a.value| > limits.maxAttributeBytes then Err(ResourceLimit)
      else AttributesFit(attributes[1..], names + {a.name}, used + |a.name| + |a.value|, limits)
  }

  /** `ExtentResolver::verify`. */
  function VerifyExtents(extents: seq<Extent>, size: u64, allocatedBytes: u64, superblock: Superblock, limits: Limits)
    : Result<()>
    requires superblock.blockSize > 0
  {
    var copy :- Normalize(limits, extents, superblock.blockCount);
    if |copy| != |extents| then Err(InvalidExtent)
    else if PhysicalCount(extents) >= TWO64 then Err(Overflow)
    else
      var total := CheckedMultiply(PhysicalCount(extents), superblock.blockSize);
      if total.None? || total.value != allocatedBytes then Err(InvalidExtent)
      else if size != 0 && exists i :: 0 <= i < |extents| && EndsBeyond(extents[i], CeilDivide(size, superblock.blockSize)) then
        Err(InvalidExtent)
      else Ok(())
  }

  predicate EndsBeyond(e: Extent, blocks: nat) {
    e.logical + e.blockCount > blocks
  }

  method CheckAttributes(attributes: seq<ExtendedAttribute>, limits: Limits) returns (r: Result<()>)
    ensures r == AttributesFit(attributes, {}, 0, limits)
  {
    var names: set<text>, used: nat := {}, 0;
    var index := 0;
    while index < |attributes|
      invariant 0 <= index <= |attributes|
      invariant AttributesFit(attributes[index..], names, used, limits) == AttributesFit(attributes, {}, 0, limits)
    {
      var a := attributes[index];
      assert attributes[index..][1..] == attributes[index + 1..];
      if a.name == [] || |a.name| > limits.maxNameBytes || a.name in names {
        return Err(InvalidName);
      }
      names := names + {a.name};
      used := used + |a.name| + |a.value|;
      if used > limits.maxAttributeBytes {
        return Err(ResourceLimit);
      }
      index := index + 1;
    }
    return Ok(());
  }

  method CheckExtents(extents: seq<Extent>, size: u64, allocatedBytes: u64, superblock: Superblock, limits: Limits)
    returns (r: Result<()>)
    requires superblock.blockSize > 0
    ensures r == VerifyExtents(extents, size, allocatedBytes, superblock, limits)
  {
    var normalized, copy := NormalizeExtents(limits, extents, superblock.blockCount);
    if normalized.Err? {
      return normalized;
    }
    assert Normalize(limits, extents, superblock.blockCount) == Ok(copy);
    hide Normalize;
    if |copy| != |extents| {
      return Err(InvalidExtent);
    }
    var blocks := 0;
    var index := 0;
    while index < |extents|
      invariant 0 <= index <= |extents|
      invariant blocks + PhysicalCount(extents[index..]) == PhysicalCount(extents)
      invariant 0 <= blocks < TWO64
    {
      assert extents[index..][1..] == extents[index + 1..];
      if !extents[index].sparse {
        var next := CheckedAdd(blocks, extents[index].blockCount);
        if next.None? {
          return Err(Overflow);
        }
        blocks := next.value;
      }
      index := index + 1;
    }
    var total := CheckedMultiply(blocks, superblock.blockSize);
    if total.None? || total.value != allocatedBytes {
      return Err(InvalidExtent);
    }
    var logicalBlocks := CeilDivide(size, superblock.blockSize);
    index := 0;
    while index < |extents|
      invariant 0 <= index <= |extents|
      invariant size != 0 ==> forall i :: 0 <= i < index ==> !EndsBeyond(extents[i], logicalBlocks)
    {
      if EndsBeyond(extents[index], logicalBlocks) && size != 0 {
        return Err(InvalidExtent);
      }
      index := index + 1;
    }
    return Ok(());
  }

  method ValidateInode(inode: Inode, superblock: Superblock, limits: Limits) returns (r: Result<()>)
    requires superblock.blockSize > 0
    ensures r == inode.Validate(superblock, limits)
  {
    if inode.identifier == 0 || inode.identifier > limits.maxInodes {
      return Err(InvalidInode);
    }
    if !inode.inodeType.Usable() {
      return Err(InvalidInode);
    }
    if inode.linkCount == 0 || inode.linkCount > limits.maxHardLinks {
      return Err(InvalidInode);
    }
    if inode.size > limits.maxFileBytes || inode.allocatedBytes > limits.maxFileBytes {
      return Err(ResourceLimit);
    }
    if |inode.extents| > limits.maxExtents {
      return Err(ResourceLimit);
    }
    if inode.inodeType == SymbolicLink {
      if inode.symlinkTarget == [] || |inode.symlinkTarget| > limits.maxPathBytes {
        return Err(InvalidPath);
      }
    } else if inode.symlinkTarget != [] {
      return Err(InvalidInode);
    }
    var attributes := CheckAttributes(inode.attributes, limits);
    if attributes.Err? {
      return attributes;
    }
    r := CheckExtents(inode.extents, inode.size, inode.allocatedBytes, superblock, limits);
  }

  // ----- Which physical blocks an extent list takes -----

  function BlocksOf(e: Extent): set<int> {
    if e.sparse then {} else Interval(e.physical, e.physical + e.blockCount)
  }

  function Owned(extents: seq<Extent>): set<int> {
    if extents == [] then {} else BlocksOf(extents[0]) + Owned(extents[1..])
  }

  predicate Apart(e: Extent, f: Extent) {
    e.sparse || f.sparse || e.physical + e.blockCount <= f.physical || f.physical + f.blockCount <= e.physical
  }

  /** No physical block is taken twice. */
  predicate PhysicallyDisjoint(extents: seq<Extent>) {
    forall i, j :: 0 <= i < j < |extents| ==> Apart(extents[i], extents[j])
  }

  lemma {:induction false} OwnedMeans(extents: seq<Extent>, block: int)
    ensures block in Owned(extents) <==> exists i :: 0 <= i < |extents| && extents[i].Owns(block)
  {
    if extents != [] {
      OwnedMeans(extents[1..], block);
      if block in Owned(extents[1..]) {
        var i :| 0 <= i < |extents[1..]| && extents[1..][i].Owns(block);
        assert extents[i + 1].Owns(block);
      }
      if i :| 0 <= i < |extents| && extents[i].Owns(block) {
        if i > 0 {
          assert extents[1..][i - 1].Owns(block);
        }
      }
    }
  }

  lemma {:induction false} OwnedConcat(left: seq<Extent>, right: seq<Extent>)
    ensures Owned(left + right) == Owned(left) + Owned(right)
  {
    if left == [] {
      assert left + right == right;
    } else {
      assert (left + right)[1..] == left[1..] + right;
      OwnedConcat(left[1..], right);
    }
  }

  /** The block a lookup finds belongs to the list, and two logical blocks never share it. */
  lemma LookupOwned(extents: seq<Extent>, block: int)
    requires Lookup(extents, block).Some?
    ensures Lookup(extents, block).value in Owned(extents)
  {
    LookupWitness(extents, block);
    OwnedMeans(extents, Lookup(extents, block).value);
    var i :| 0 <= i < |extents| && extents[i].CoversLogical(block) && !extents[i].sparse
             && Lookup(extents, block) == extents[i].Target(block);
    assert extents[i].Owns(Lookup(extents, block).value);
  }

  lemma LookupInjective(extents: seq<Extent>, a: int, b: int)
    requires PhysicallyDisjoint(extents)
    requires Lookup(extents, a).Some? && Lookup(extents, a) == Lookup(extents, b)
    ensures a == b
  {
    LookupWitness(extents, a);
    LookupWitness(extents, b);
    var i :| 0 <= i < |extents| && extents[i].CoversLogical(a) && !extents[i].sparse
             && Lookup(extents, a) == extents[i].Target(a);
    var j :| 0 <= j < |extents| && extents[j].CoversLogical(b) && !extents[j].sparse
             && Lookup(extents, b) == extents[j].Target(b);
    assert i != j ==> Apart(extents[if i < j then i else j], extents[if i < j then j else i]);
  }

  /** `ExtentResolver::physical_blocks`: refused where one inode takes a block twice. */
  function PhysicalBlocks(inode: Inode, superblock: Superblock, limits: Limits): Result<set<int>>
    requires superblock.blockSize > 0
  {
    var _ :- VerifyExtents(inode.extents, inode.size, inode.allocatedBytes, superblock, limits);
    if PhysicallyDisjoint(inode.extents) then Ok(Owned(inode.extents)) else Err(InvalidExtent)
  }

  /** The inner loop: every block of one extent, refused at the first one already there. */
  method InsertBlocks(result: set<int>, e: Extent) returns (grown: Option<set<int>>)
    ensures grown.Some? ==> grown.value == result + BlocksOf(e) && forall b :: e.Owns(b) ==> b !in result
    ensures grown.None? ==> exists b :: e.Owns(b) && b in result
  {
    if e.sparse {
      return Some(result);
    }
    var blocks := result;
    var offset := 0;
    while offset < e.blockCount
      invariant 0 <= offset <= e.blockCount
      invariant forall b :: b in blocks <==> b in result || e.physical <= b < e.physical + offset
      invariant forall b :: e.physical <= b < e.physical + offset ==> b !in result
    {
      var block := e.physical + offset;
      if block in blocks {
        assert e.Owns(block) && block in result;
        return None;
      }
      blocks := blocks + {block};
      offset := offset + 1;
    }
    return Some(blocks);
  }

  method CollectPhysicalBlocks(inode: Inode, superblock: Superblock, limits: Limits) returns (r: Result<set<int>>)
    requires superblock.blockSize > 0
    ensures r == PhysicalBlocks(inode, superblock, limits)
  {
    var verified := CheckExtents(inode.extents, inode.size, inode.allocatedBytes, superblock, limits);
    if verified.Err? {
      return Err(verified.code);
    }
    var extents := inode.extents;
    NormalizeSucceedsIff(limits, extents, superblock.blockCount);
    hide VerifyExtents, Disjoint, PhysicallyDisjoint, Owned;
    var result: set<int> := {};
    var index := 0;
    while index < |extents|
      invariant 0 <= index <= |extents|
      invariant result == Owned(extents[..index])
      invariant PhysicallyDisjoint(extents[..index])
    {
      AppendOwned(extents, index);
      var grown := InsertBlocks(result, extents[index]);
      if grown.None? {
        ghost var block :| extents[index].Owns(block) && block in result;
        OverlapFound(extents, index, block);
        return Err(InvalidExtent);
      }
      NoOverlap(extents, index, superblock.blockCount);
      result := grown.value;
      index := index + 1;
    }
    assert extents[..index] == extents;
    return Ok(result);
  }

  lemma AppendOwned(extents: seq<Extent>, index: nat)
    requires index < |extents|
    ensures Owned(extents[..index + 1]) == Owned(extents[..index]) + BlocksOf(extents[index])
  {
    assert extents[..index + 1] == extents[..index] + [extents[index]];
    OwnedConcat(extents[..index], [extents[index]]);
    assert [extents[index]][1..] == [];
  }

  lemma OverlapFound(extents: seq<Extent>, index: nat, block: int)
    requires index < |extents| && extents[index].Owns(block) && block in Owned(extents[..index])
    ensures !PhysicallyDisjoint(extents)
  {
    OwnedMeans(extents[..index], block);
    var i :| 0 <= i < index && extents[..index][i].Owns(block);
    assert !Apart(extents[i], extents[index]);
  }

  lemma NoOverlap(extents: seq<Extent>, index: nat, deviceBlocks: u64)
    requires index < |extents| && WellFormed(extents, deviceBlocks)
    requires PhysicallyDisjoint(extents[..index])
    requires forall b :: extents[index].Owns(b) ==> b !in Owned(extents[..index])
    ensures PhysicallyDisjoint(extents[..index + 1])
  {
    hide Owned;
    forall i | 0 <= i < index ensures Apart(extents[i], extents[index]) {
      assert Sound(extents[i], deviceBlocks) && Sound(extents[index], deviceBlocks);
      if !Apart(extents[i], extents[index]) {
        var b := Max(extents[i].physical, extents[index].physical);
        assert extents[index].Owns(b) && extents[..index][i].Owns(b);
        OwnedMeans(extents[..index], b);
      }
    }
    assert forall i :: 0 <= i < index ==> extents[..index + 1][i] == extents[..index][i];
  }
}
