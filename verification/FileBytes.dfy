/** Chunked reads and writes act on a file exactly as on a byte sequence. */
module FileBytes {
  import opened Base
  import opened Devices
  import opened Extents
  import opened Inodes
  import opened FileData

  // ----- Positions and blocks -----

  /** The positions of one chunk are the places of one block from the chunk's start on. */
  lemma ChunkPositions(start: nat, chunk: nat, size: nat, p: nat)
    requires size > 0 && Within(start, size) + chunk <= size
    ensures start <= p < start + chunk <==>
            BlockOf(p, size) == BlockOf(start, size) && Within(start, size) <= Within(p, size) < Within(start, size) + chunk
    ensures start <= p < start + chunk ==> Within(p, size) - Within(start, size) == p - start
  {
    var b, c := BlockOf(start, size), BlockOf(p, size);
    assert b * size <= start < b * size + size;
    assert c * size <= p < c * size + size;
    BlocksApart(size, b, c);
    BlocksApart(size, c, b);
  }

  // ----- Devices byte by byte -----

  predicate SameShape(d: Device, e: Device) {
    d.blockSize == e.blockSize && |d.bytes| == |e.bytes|
  }

  lemma WriteAt(d: Device, block: u64, offset: u32, input: seq<byte>, other: int, within: nat)
    requires d.Write(block, offset, input).Ok?
    ensures var w := d.Write(block, offset, input).value;
            && SameShape(d, w)
            && At(w, other, within) ==
               if other == block && offset <= within < offset + |input| then input[within - offset] else At(d, other, within)
  {
    if 0 <= other < d.BlockCount() && within < d.blockSize {
      WriteThenByte(d, block, offset, input, other, within);
    }
  }

  lemma OwnedInRange(extents: seq<Extent>, deviceBlocks: u64, block: int)
    requires WellFormed(extents, deviceBlocks) && block in Owned(extents)
    ensures 0 <= block < deviceBlocks
  {
    OwnedMeans(extents, block);
    var i :| 0 <= i < |extents| && extents[i].Owns(block);
    assert Sound(extents[i], deviceBlocks);
  }

  // ----- One chunk -----

  ghost predicate Mapped(extents: seq<Extent>, from: nat, to: nat, size: nat)
    requires size > 0
  {
    forall p :: from <= p < to ==> Lookup(extents, BlockOf(p, size)).Some?
  }

  /** The device and the extents fit together: enough to read and write any mapped byte. */
  ghost predicate Fits(d: Device, extents: seq<Extent>, superblock: Superblock) {
    && d.blockSize == superblock.blockSize > 0
    && d.BlockCount() == superblock.blockCount
    && WellFormed(extents, superblock.blockCount)
  }

  lemma ChunkMapping(d: Device, extents: seq<Extent>, position: nat, superblock: Superblock)
    requires Fits(d, extents, superblock) && position < TWO64
    ensures var block := BlockOf(position, superblock.blockSize);
            var mapping := Map(extents, Wrap64(block), superblock.blockCount);
            && block < TWO64
            && mapping.Ok? && mapping.value.physicalBlock == Lookup(extents, block)
            && (Lookup(extents, block).Some? ==> 0 <= Lookup(extents, block).value < d.BlockCount()
                                                 && Lookup(extents, block).value in Owned(extents))
  {
    var block := BlockOf(position, superblock.blockSize);
    MulMonotone(block, 1, superblock.blockSize);
    MapIsLookup(extents, block, superblock.blockCount);
    if Lookup(extents, block).Some? {
      LookupOwned(extents, block);
      OwnedInRange(extents, superblock.blockCount, Lookup(extents, block).value);
    }
  }

  lemma ChunkByte(d: Device, extents: seq<Extent>, position: nat, data: seq<byte>, superblock: Superblock, p: nat)
    requires Fits(d, extents, superblock) && PhysicallyDisjoint(extents) && position < TWO64
    requires Within(position, superblock.blockSize) + |data| <= superblock.blockSize
    requires Lookup(extents, BlockOf(position, superblock.blockSize)).Some?
    requires var block := Lookup(extents, BlockOf(position, superblock.blockSize)).value;
             0 <= block < TWO64 && d.Write(block, Within(position, superblock.blockSize), data).Ok?
    ensures var block := Lookup(extents, BlockOf(position, superblock.blockSize)).value;
            var w := d.Write(block, Within(position, superblock.blockSize), data).value;
            ByteAt(w, extents, p) == if position <= p < position + |data| then data[p - position] else ByteAt(d, extents, p)
  {
    hide Device.Write, At, Lookup, PhysicallyDisjoint;
    var size := superblock.blockSize;
    var here, there := BlockOf(position, size), BlockOf(p, size);
    var block := Lookup(extents, here).value;
    ChunkPositions(position, |data|, size, p);
    if Lookup(extents, there).Some? {
      WriteAt(d, block, Within(position, size), data, Lookup(extents, there).value, Within(p, size));
      if Lookup(extents, there).value == block {
        LookupInjective(extents, here, there);
      }
    } else {
      WriteAt(d, block, Within(position, size), data, 0, 0);
    }
  }

  // ----- The write loop -----

  lemma {:induction false} WriteChunksCorrect(d: Device, extents: seq<Extent>, position: nat, data: seq<byte>, superblock: Superblock)
    requires Fits(d, extents, superblock) && PhysicallyDisjoint(extents)
    requires position + |data| <= TWO64
    requires Mapped(extents, position, position + |data|, superblock.blockSize)
    ensures var (w, r) := WriteChunks(d, extents, position, data, superblock);
            && r == Ok(()) && SameShape(d, w)
            && (forall p: nat :: ByteAt(w, extents, p) ==
                  if position <= p < position + |data| then data[p - position] else ByteAt(d, extents, p))
            && (forall b, i: nat :: b !in Owned(extents) ==> At(w, b, i) == At(d, b, i))
    decreases |data|
  {
    hide At, Lookup, PhysicallyDisjoint, WellFormed, ByteAt, Map, Owned, BlockOf, Within;
    if data != [] {
      var size := superblock.blockSize;
      var chunk := ChunkLength(position, |data|, size);
      ChunkMapping(d, extents, position, superblock);
      assert Lookup(extents, BlockOf(position, size)).Some?;
      var block := Lookup(extents, BlockOf(position, size)).value;
      var first := d.Write(block, Within(position, size), data[..chunk]).value;
      assert SameShape(d, first) by {
        WriteAt(d, block, Within(position, size), data[..chunk], 0, 0);
      }
      hide Device.Write;
      forall p: nat ensures ByteAt(first, extents, p) ==
                            if position <= p < position + chunk then data[p - position] else ByteAt(d, extents, p)
      {
        ChunkByte(d, extents, position, data[..chunk], superblock, p);
      }
      forall b, i: nat | b !in Owned(extents) ensures At(first, b, i) == At(d, b, i) {
        WriteAt(d, block, Within(position, size), data[..chunk], b, i);
      }
      WriteChunksCorrect(first, extents, position + chunk, data[chunk..], superblock);
    }
  }

  // ----- The read loop -----

  /** The bytes of positions `position..position + count`. */
  ghost function Range(d: Device, extents: seq<Extent>, position: nat, count: nat): (r: seq<byte>)
    requires d.blockSize > 0
    ensures |r| == count
    ensures forall k :: 0 <= k < count ==> r[k] == ByteAt(d, extents, position + k)
  {
    if count == 0 then [] else Range(d, extents, position, count - 1) + [ByteAt(d, extents, position + count - 1)]
  }

  lemma RangeConcat(d: Device, extents: seq<Extent>, position: nat, left: nat, right: nat)
    requires d.blockSize > 0
    ensures Range(d, extents, position, left) + Range(d, extents, position + left, right) ==
            Range(d, extents, position, left + right)
  {
    hide ByteAt;
  }

  lemma ReadChunk(d: Device, extents: seq<Extent>, position: nat, chunk: nat, block: u64, superblock: Superblock)
    requires Fits(d, extents, superblock)
    requires Within(position, superblock.blockSize) + chunk <= superblock.blockSize
    requires Lookup(extents, BlockOf(position, superblock.blockSize)) == Some(block as int)
    requires block < d.BlockCount()
    ensures d.Read(block, Within(position, superblock.blockSize), chunk) == Ok(Range(d, extents, position, chunk))
  {
    hide Lookup, BlockOf, Within, WellFormed, At, Device.Read;
    var size := superblock.blockSize;
    var r := d.Read(block, Within(position, size), chunk);
    ReadBytes(d, block, Within(position, size), chunk);
    forall k | 0 <= k < chunk ensures r.value[k] == ByteAt(d, extents, position + k) {
      ChunkPositions(position, chunk, size, position + k);
    }
    assert r.value == Range(d, extents, position, chunk);
  }

  lemma ReadBytes(d: Device, block: u64, offset: u32, length: nat)
    requires d.InBlock(block, offset, length)
    ensures var r := d.Read(block, offset, length);
            r.Ok? && |r.value| == length && forall k :: 0 <= k < length ==> r.value[k] == At(d, block, offset + k)
  {
    d.InBlockFits(block, offset, length);
  }

  lemma ReadHole(d: Device, extents: seq<Extent>, position: nat, chunk: nat, superblock: Superblock)
    requires d.blockSize == superblock.blockSize > 0
    requires Within(position, superblock.blockSize) + chunk <= superblock.blockSize
    requires Lookup(extents, BlockOf(position, superblock.blockSize)).None?
    ensures Zeros(chunk) == Range(d, extents, position, chunk)
  {
    hide Lookup, BlockOf, Within;
    forall k | 0 <= k < chunk ensures Range(d, extents, position, chunk)[k] == 0 {
      ChunkPositions(position, chunk, superblock.blockSize, position + k);
    }
  }

  lemma {:induction false} ReadChunksCorrect(d: Device, extents: seq<Extent>, position: nat, count: nat, superblock: Superblock)
    requires Fits(d, extents, superblock) && position + count <= TWO64
    ensures ReadChunks(d, extents, position, count, superblock) == Ok(Range(d, extents, position, count))
    decreases count
  {
    hide At, Lookup, WellFormed, ByteAt, Map, Owned, BlockOf, Within, Range, Device.Read;
    var size := superblock.blockSize;
    if count == 0 {
      assert Range(d, extents, position, 0) == [];
    } else {
      var chunk := ChunkLength(position, count, size);
      ChunkMapping(d, extents, position, superblock);
      if Lookup(extents, BlockOf(position, size)).Some? {
        ReadChunk(d, extents, position, chunk, Lookup(extents, BlockOf(position, size)).value, superblock);
      } else {
        ReadHole(d, extents, position, chunk, superblock);
      }
      ReadChunksCorrect(d, extents, position + chunk, count - chunk, superblock);
      RangeConcat(d, extents, position, chunk, count - chunk);
    }
  }

  /** A read returns exactly the requested slice of the file's bytes, holes as zeros. */
  lemma ReadIsSlice(d: Device, inode: Inode, offset: u64, count: nat, superblock: Superblock)
    requires Fits(d, inode.extents, superblock)
    ensures ReadData(d, inode, offset, count, superblock) == Ok(Slice(Content(d, inode), offset, count))
  {
    hide ByteAt, WellFormed, ReadChunks;
    if offset < inode.size && count > 0 {
      var n := Min(inode.size - offset, count);
      ReadChunksCorrect(d, inode.extents, offset, n, superblock);
      assert Range(d, inode.extents, offset, n) == Slice(Content(d, inode), offset, count);
    } else {
      assert Slice(Content(d, inode), offset, count) == [];
    }
  }
}
