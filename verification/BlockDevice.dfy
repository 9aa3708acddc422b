/** The block device: one flat buffer, addressed by block and offset, bounds checked. */
module Devices {
  import opened Base

  /** What a device holds: its block size and all its bytes in order. */
  datatype Device = Device(blockSize: u32, bytes: seq<byte>) {
    function BlockCount(): nat {
      if blockSize == 0 then 0 else Quotient(|bytes|, blockSize)
    }

    predicate InBlock(block: u64, offset: u32, length: nat) {
      block < BlockCount() && offset <= blockSize && length <= blockSize - offset
    }

    function Read(block: u64, offset: u32, length: nat): Result<seq<byte>> {
      if InBlock(block, offset, length) then
        InBlockFits(block, offset, length);
        Ok(bytes[block * blockSize + offset..][..length])
      else
        Err(InvalidBlock)
    }

    function Write(block: u64, offset: u32, input: seq<byte>): Result<Device> {
      if InBlock(block, offset, |input|) then
        InBlockFits(block, offset, |input|);
        Ok(Device(blockSize, Splice(bytes, block * blockSize + offset, input)))
      else
        Err(InvalidBlock)
    }

    function Zero(block: u64): Result<Device> {
      Write(block, 0, Zeros(blockSize))
    }

    lemma BlockInside(block: nat)
      requires block < BlockCount()
      ensures 0 <= block * blockSize && block * blockSize + blockSize <= |bytes|
    {
      BlockFits(block, blockSize, |bytes|);
    }

    lemma InBlockFits(block: u64, offset: u32, length: nat)
      requires InBlock(block, offset, length)
      ensures 0 <= block * blockSize
      ensures block * blockSize + offset + length <= |bytes|
    {
      BlockFits(block, blockSize, |bytes|);
    }
  }

  function Zeros(n: nat): (z: seq<byte>)
    ensures |z| == n
    ensures forall i :: 0 <= i < n ==> z[i] == 0
  {
    seq(n, _ => 0)
  }

  /** `memcpy` into the middle of a buffer. */
  function Splice(s: seq<byte>, at: nat, input: seq<byte>): (r: seq<byte>)
    requires at + |input| <= |s|
    ensures |r| == |s|
    ensures forall i :: 0 <= i < |s| ==> r[i] == if at <= i < at + |input| then input[i - at] else s[i]
  {
    s[..at] + input + s[at + |input|..]
  }

  lemma BlockFits(block: nat, size: nat, total: nat)
    requires size > 0 && block < Quotient(total, size)
    ensures 0 <= block * size
    ensures block * size + size <= total
  {
    MulMonotone(size, block + 1, Quotient(total, size));
  }

  lemma BlocksApart(size: nat, a: nat, b: nat)
    ensures a < b ==> a * size + size <= b * size
    ensures 0 <= a * size
  {
    if a < b {
      MulMonotone(size, a + 1, b);
    }
  }

  predicate Geometry(limits: Limits, blockSize: u32) {
    limits.minBlockSize <= blockSize <= limits.maxBlockSize && PowerOfTwo(blockSize)
  }

  /** A zeroed device. */
  function CreateDevice(newSize: u32, blockCount: u64, limits: Limits): Result<Device> {
    if !Geometry(limits, newSize) then Err(InvalidBlock)
    else if blockCount == 0 || blockCount > limits.maxBlocks then Err(ResourceLimit)
    else
      MulMonotone(newSize, 0, blockCount);
      if newSize * blockCount > limits.maxImageBytes then Err(Overflow)
      else Ok(Device(newSize, Zeros(newSize * blockCount)))
  }

  /** A device over the bytes of an image. */
  function OpenDevice(data: seq<byte>, newSize: u32, limits: Limits): Result<Device> {
    if !Geometry(limits, newSize) || |data| == 0 || |data| % newSize != 0 || |data| > limits.maxImageBytes then Err(InvalidBlock)
    else if Quotient(|data|, newSize) > limits.maxBlocks then Err(ResourceLimit)
    else Ok(Device(newSize, data))
  }

  class BlockDevice {
    const limits: Limits
    var blockSize: u32
    var bytes: array<byte>

    function View(): Device
      reads this, bytes
    {
      Device(blockSize, bytes[..])
    }

    constructor (limits: Limits)
      ensures this.limits == limits && fresh(bytes)
      ensures View() == Device(0, [])
    {
      this.limits := limits;
      blockSize := 0;
      bytes := new byte[0];
    }

    /** A zeroed device of `blockCount` blocks, or no change at all. */
    method Create(newSize: u32, blockCount: u64) returns (r: Result<()>)
      modifies this
      ensures r.Ok? <==> CreateDevice(newSize, blockCount, limits).Ok?
      ensures r.Ok? ==> fresh(bytes) && CreateDevice(newSize, blockCount, limits) == Ok(View())
      ensures r.Err? ==> CreateDevice(newSize, blockCount, limits) == Err(r.code) && bytes == old(bytes) && blockSize == old(blockSize)
    {
      if newSize < limits.minBlockSize || newSize > limits.maxBlockSize || !PowerOfTwo(newSize) {
        return Err(InvalidBlock);
      }
      if blockCount == 0 || blockCount > limits.maxBlocks {
        return Err(ResourceLimit);
      }
      var total := CheckedMultiply(newSize, blockCount);
      if total.None? || total.value > limits.maxImageBytes {
        return Err(Overflow);
      }
      bytes := new byte[total.value](_ => 0);
      blockSize := newSize;
      assert bytes[..] == Zeros(total.value);
      return Ok(());
    }

    method Open(data: seq<byte>, newSize: u32) returns (r: Result<()>)
      modifies this
      ensures r.Ok? <==> OpenDevice(data, newSize, limits).Ok?
      ensures r.Ok? ==> fresh(bytes) && OpenDevice(data, newSize, limits) == Ok(View())
      ensures r.Err? ==> OpenDevice(data, newSize, limits) == Err(r.code) && bytes == old(bytes) && blockSize == old(blockSize)
    {
      if newSize < limits.minBlockSize || newSize > limits.maxBlockSize || !PowerOfTwo(newSize)
        || |data| == 0 || |data| % newSize != 0 || |data| > limits.maxImageBytes
      {
        return Err(InvalidBlock);
      }
      if Quotient(|data|, newSize) > limits.maxBlocks {
        return Err(ResourceLimit);
      }
      bytes := new byte[|data|](i requires 0 <= i < |data| => data[i]);
      blockSize := newSize;
      assert bytes[..] == data;
      return Ok(());
    }

    method Read(block: u64, offset: u32, length: nat) returns (r: Result<seq<byte>>)
      ensures r == View().Read(block, offset, length)
    {
      if block >= View().BlockCount() || offset > blockSize || length > blockSize - offset {
        return Err(InvalidBlock);
      }
      View().InBlockFits(block, offset, length);
      var base := block * blockSize + offset;
      assert bytes[base..base + length] == bytes[..][base..][..length];
      return Ok(bytes[base..base + length]);
    }

    method Write(block: u64, offset: u32, input: seq<byte>) returns (r: Result<()>)
      modifies bytes
      ensures r.Ok? <==> old(View()).Write(block, offset, input).Ok?
      ensures r.Ok? ==> Ok(View()) == old(View()).Write(block, offset, input)
      ensures r.Err? ==> old(View()).Write(block, offset, input) == Err(r.code) && View() == old(View())
    {
      if block >= View().BlockCount() || offset > blockSize || |input| > blockSize - offset {
        return Err(InvalidBlock);
      }
      View().InBlockFits(block, offset, |input|);
      var base := block * blockSize + offset;
      ghost var before := bytes[..];
      forall i | 0 <= i < |input| {
        bytes[base + i] := input[i];
      }
      assert bytes[..] == Splice(before, base, input);
      return Ok(());
    }

    method Zero(block: u64) returns (r: Result<()>)
      modifies bytes
      ensures r.Ok? <==> old(View()).Zero(block).Ok?
      ensures r.Ok? ==> Ok(View()) == old(View()).Zero(block)
      ensures r.Err? ==> old(View()).Zero(block) == Err(r.code) && View() == old(View())
    {
      r := Write(block, 0, Zeros(blockSize));
    }

    /** Move assignment from a saved copy. */
    method Restore(saved: Device)
      modifies this
      ensures fresh(bytes) && View() == saved
    {
      bytes := new byte[|saved.bytes|](i requires 0 <= i < |saved.bytes| => saved.bytes[i]);
      blockSize := saved.blockSize;
      assert bytes[..] == saved.bytes;
    }
  }

  /** A write shows up exactly where it was aimed and nowhere else. */
  lemma WriteThenByte(d: Device, block: u64, offset: u32, input: seq<byte>, other: nat, within: nat)
    requires d.Write(block, offset, input).Ok?
    requires within < d.blockSize && other < d.BlockCount()
    ensures 0 <= other * d.blockSize && other * d.blockSize + within < |d.bytes|
    ensures d.Write(block, offset, input).value.bytes[other * d.blockSize + within] ==
            if other == block && offset <= within < offset + |input| then input[within - offset]
            else d.bytes[other * d.blockSize + within]
  {
    d.BlockInside(other);
    d.InBlockFits(block, offset, |input|);
    BlocksApart(d.blockSize, other, block);
    BlocksApart(d.blockSize, block, other);
    var at := block * d.blockSize;
    var position := other * d.blockSize;
  }
}
