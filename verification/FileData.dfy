/** File contents: growing, shrinking, writing and reading an inode's data through its extents. */
module FileData {
  import opened Base
  import opened Devices
  import opened Allocators
  import opened Extents
  import opened Inodes

  /** The part of the filesystem file data lives in. */
  datatype Store = Store(device: Device, allocation: Allocation)

  /** The block a byte position falls in, and its place there. */
  function BlockOf(position: nat, blockSize: nat): (block: nat)
    requires blockSize > 0
  {
    Quotient(position, blockSize)
  }

  function Within(position: nat, blockSize: nat): (within: nat)
    requires blockSize > 0
    ensures within < blockSize
  {
    position - BlockOf(position, blockSize) * blockSize
  }

  // ----- resize_inode -----

  /** Zeroes each new block and appends a one-block extent for it, starting at logical `next`. */
  function Attach(device: Device, extents: seq<Extent>, blocks: seq<u64>, next: u64): (Device, seq<Extent>, Result<()>)
    decreases |blocks|
  {
    if blocks == [] then
      (device, extents, Ok(()))
    else
      match device.Zero(blocks[0])
      case Err(code) => (device, extents, Err(code))
      case Ok(zeroed) =>
        Attach(zeroed, extents + [Extent(next, blocks[0], 1, false)], blocks[1..], Wrap64(next + 1))
  }

  /** Releases physical blocks `from..end`, stopping at the first that is not allocated. */
  function ReleaseRange(allocation: Allocation, from: nat, end: nat): (Allocation, Result<()>)
    decreases end - from
  {
    if from >= end then
      (allocation, Ok(()))
    else
      match allocation.Release(Wrap64(from))
      case Err(code) => (allocation, Err(code))
      case Ok(released) => ReleaseRange(released, from + 1, end)
  }

  /** What is left of one extent when the file is cut to `blocks` logical blocks. */
  function Cut(e: Extent, blocks: u64): Option<Extent> {
    if e.logical >= blocks then None
    else if e.logical + e.blockCount > blocks then Some(e.(blockCount := blocks - e.logical))
    else Some(e)
  }

  function Kept(e: Extent, blocks: u64): u32 {
    if Cut(e, blocks).None? then 0 else Cut(e, blocks).value.blockCount
  }

  function Retained(retained: seq<Extent>, e: Extent, blocks: u64): seq<Extent> {
    if Cut(e, blocks).None? then retained else retained + [Cut(e, blocks).value]
  }

  /** Releases what one extent loses. */
  function ReleaseCut(allocation: Allocation, e: Extent, blocks: u64): (Allocation, Result<()>) {
    if e.sparse then (allocation, Ok(()))
    else ReleaseRange(allocation, e.physical + Kept(e, blocks), e.physical + e.blockCount)
  }

  function Detach(allocation: Allocation, extents: seq<Extent>, retained: seq<Extent>, blocks: u64)
    : (Allocation, Result<seq<Extent>>)
    decreases |extents|
  {
    if extents == [] then
      (allocation, Ok(retained))
    else
      var e := extents[0];
      match e.LogicalEnd()
      case Err(code) => (allocation, Err(code))
      case Ok(end) =>
        var (released, r) := ReleaseCut(allocation, e, blocks);
        match r
        case Err(code) => (released, Err(code))
        case Ok(_) =>
          Detach(released, extents[1..], Retained(retained, e, blocks), blocks)
  }

  /** The new size, the byte count of the extents and the generation; the count may overflow. */
  function Settle(inode: Inode, size: u64, superblock: Superblock): (Inode, Result<()>) {
    var sized := inode.(size := size);
    var total := CheckedMultiply(Wrap64(PhysicalCount(inode.extents)), superblock.blockSize);
    if total.None? then (sized, Err(Overflow))
    else (sized.(allocatedBytes := total.value, generation := Wrap64(inode.generation + 1)), Ok(()))
  }

  function Grow(store: Store, inode: Inode, oldBlocks: u64, newBlocks: u64, superblock: Superblock, limits: Limits)
    : (Store, Inode, Result<()>)
    requires oldBlocks <= newBlocks
  {
    match store.allocation.AllocateMany(newBlocks - oldBlocks)
    case Err(code) => (store, inode, Err(code))
    case Ok((allocation, blocks)) =>
      var (device, extents, attached) := Attach(store.device, inode.extents, blocks, oldBlocks);
      var grown := Store(device, allocation);
      match attached
      case Err(code) => (grown, inode.(extents := extents), Err(code))
      case Ok(_) =>
        var after := inode.(extents := AfterNormalize(limits, extents, superblock.blockCount));
        match Normalize(limits, extents, superblock.blockCount)
        case Err(code) => (grown, after, Err(code))
        case Ok(_) => (grown, after, Ok(()))
  }

  function Shrink(store: Store, inode: Inode, newBlocks: u64): (Store, Inode, Result<()>) {
    var (allocation, retained) := Detach(store.allocation, inode.extents, [], newBlocks);
    var shrunk := store.(allocation := allocation);
    match retained
    case Err(code) => (shrunk, inode, Err(code))
    case Ok(extents) => (shrunk, inode.(extents := extents), Ok(()))
  }

  function Resize(store: Store, inode: Inode, size: u64, superblock: Superblock, limits: Limits)
    : (Store, Inode, Result<()>)
    requires superblock.blockSize > 0
  {
    if size > limits.maxFileBytes then
      (store, inode, Err(ResourceLimit))
    else
      var oldBlocks := CeilDivide(inode.size, superblock.blockSize);
      var newBlocks := CeilDivide(size, superblock.blockSize);
      var (store', inode', r) :=
        if newBlocks > oldBlocks then Grow(store, inode, oldBlocks, newBlocks, superblock, limits)
        else if newBlocks < oldBlocks then Shrink(store, inode, newBlocks)
        else (store, inode, Ok(()));
      if r.Err? then
        (store', inode', r)
      else
        var (settled, s) := Settle(inode', size, superblock);
        (store', settled, s)
  }

  // ----- write_inode_data and read_inode_data -----

  function ChunkLength(position: nat, remaining: nat, blockSize: nat): (chunk: nat)
    requires blockSize > 0
    ensures chunk <= remaining && Within(position, blockSize) + chunk <= blockSize
    ensures remaining > 0 ==> chunk > 0
  {
    if remaining <= blockSize - Within(position, blockSize) then remaining else blockSize - Within(position, blockSize)
  }

  /** Writes block by block; a failure leaves what was written before it. */
  function WriteChunks(device: Device, extents: seq<Extent>, position: nat, data: seq<byte>, superblock: Superblock)
    : (Device, Result<()>)
    requires superblock.blockSize > 0
    decreases |data|
  {
    if data == [] then
      (device, Ok(()))
    else
      var chunk := ChunkLength(position, |data|, superblock.blockSize);
      var mapping := Map(extents, Wrap64(BlockOf(position, superblock.blockSize)), superblock.blockCount);
      if mapping.Err? || mapping.value.physicalBlock.None? then
        (device, Err(InvalidExtent))
      else
        match device.Write(mapping.value.physicalBlock.value, Within(position, superblock.blockSize), data[..chunk])
        case Err(code) => (device, Err(code))
        case Ok(written) => WriteChunks(written, extents, position + chunk, data[chunk..], superblock)
  }

  function WriteData(store: Store, inode: Inode, offset: u64, data: seq<byte>, superblock: Superblock, limits: Limits)
    : (Store, Inode, Result<()>)
    requires superblock.blockSize > 0
  {
    if offset + |data| >= TWO64 || offset + |data| > limits.maxFileBytes then
      (store, inode, Err(Overflow))
    else
      var end := offset + |data|;
      var (store', inode', r) :=
        if end > inode.size then Resize(store, inode, end, superblock, limits) else (store, inode, Ok(()));
      if r.Err? then
        (store', inode', r)
      else
        var (device, w) := WriteChunks(store'.device, inode'.extents, offset, data, superblock);
        (store'.(device := device), inode', w)
  }

  /** `count` bytes from `position` on; a hole reads as zeros. */
  function ReadChunks(device: Device, extents: seq<Extent>, position: nat, count: nat, superblock: Superblock)
    : Result<seq<byte>>
    requires superblock.blockSize > 0
    decreases count
  {
    if count == 0 then
      Ok([])
    else
      var chunk := ChunkLength(position, count, superblock.blockSize);
      var mapping :- Map(extents, Wrap64(BlockOf(position, superblock.blockSize)), superblock.blockCount);
      var bytes :-
        if mapping.physicalBlock.None? then Ok(Zeros(chunk))
        else device.Read(mapping.physicalBlock.value, Within(position, superblock.blockSize), chunk);
      var rest :- ReadChunks(device, extents, position + chunk, count - chunk, superblock);
      Ok(bytes + rest)
  }

  function ReadData(device: Device, inode: Inode, offset: u64, count: nat, superblock: Superblock): Result<seq<byte>>
    requires superblock.blockSize > 0
  {
    if offset >= inode.size || count == 0 then Ok([])
    else ReadChunks(device, inode.extents, offset, Min(inode.size - offset, count), superblock)
  }

  /** `release_inode_blocks`, stopping at the first block that is not allocated. */
  function ReleaseExtents(allocation: Allocation, extents: seq<Extent>): (Allocation, Result<()>)
    decreases |extents|
  {
    if extents == [] then
      (allocation, Ok(()))
    else
      var e := extents[0];
      var (released, r) :=
        if e.sparse then (allocation, Ok(())) else ReleaseRange(allocation, e.physical, e.physical + e.blockCount);
      if r.Err? then (released, r) else ReleaseExtents(released, extents[1..])
  }

  function ReleaseInode(allocation: Allocation, inode: Inode): (Allocation, Inode, Result<()>) {
    var (released, r) := ReleaseExtents(allocation, inode.extents);
    if r.Err? then (released, inode, r) else (released, inode.(extents := [], allocatedBytes := 0), Ok(()))
  }

  // ----- Contents as bytes -----

  /** Byte `within` of physical block `block`; zero outside the device. */
  function At(device: Device, block: int, within: nat): byte {
    if 0 <= block < device.BlockCount() && within < device.blockSize then
      device.BlockInside(block);
      device.bytes[block * device.blockSize + within]
    else
      0
  }

  /** What an extent list says about a byte position. */
  ghost function ByteAt(device: Device, extents: seq<Extent>, position: nat): byte
    requires device.blockSize > 0
  {
    var block := Lookup(extents, BlockOf(position, device.blockSize));
    if block.None? then 0 else At(device, block.value, Within(position, device.blockSize))
  }

  /** The file as a byte sequence. */
  ghost function Content(device: Device, inode: Inode): (content: seq<byte>)
    requires device.blockSize > 0
    ensures |content| == inode.size
  {
    seq(inode.size, p requires 0 <= p < inode.size => ByteAt(device, inode.extents, p))
  }

  /** Writing `data` at `offset` into a byte sequence, with a zero gap where it starts past the end. */
  function Overlay(content: seq<byte>, offset: nat, data: seq<byte>): (r: seq<byte>)
    ensures |r| == Max(|content|, offset + |data|)
    ensures forall p :: 0 <= p < |r| ==>
              r[p] == if offset <= p < offset + |data| then data[p - offset] else if p < |content| then content[p] else 0
  {
    seq(Max(|content|, offset + |data|), p requires 0 <= p =>
      if offset <= p < offset + |data| then data[p - offset] else if p < |content| then content[p] else 0)
  }

  /** The bytes a read of `count` from `offset` must return. */
  function Slice(content: seq<byte>, offset: nat, count: nat): seq<byte> {
    if offset >= |content| then [] else content[offset..Min(|content|, offset + count)]
  }
}
