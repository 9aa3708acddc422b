/** The allocation bitmap. Its abstract value is a set of allocated blocks with a search hint. */
module Allocators {
  import opened Base

  /** `used` are the allocated blocks of `0..count`; the circular search starts at `hint`. */
  datatype Allocation = Allocation(count: u64, used: set<u64>, hint: u64) {

    /** Kept from `initialize` or `load` on: everything below the hint is allocated. */
    ghost predicate Valid() {
      && (forall b :: b in used ==> b < count)
      && (hint < count || hint == 0)
      && forall b: u64 :: b < hint ==> b in used
    }

    /** The free blocks at or above `from`, lowest first. */
    function FreeFrom(from: nat): (free: seq<u64>)
      ensures forall k :: 0 <= k < |free| ==> from <= free[k] < count && free[k] !in used
      ensures forall i, j :: 0 <= i < j < |free| ==> free[i] < free[j]
      decreases count - from
    {
      if from >= count then []
      else if from in used then FreeFrom(from + 1)
      else [from] + FreeFrom(from + 1)
    }

    function Free(): seq<u64> {
      FreeFrom(0)
    }

    /** First fit: the `n` lowest free blocks in increasing order, or nothing. */
    function AllocateMany(n: nat): Result<(Allocation, seq<u64>)> {
      if n > |Free()| then
        Err(NoSpace)
      else
        var blocks := Free()[..n];
        Ok((Allocation(count, used + Members(blocks), if n == 0 then hint else Following(blocks[n - 1], count)), blocks))
    }

    function Release(block: u64): Result<Allocation> {
      if block < count && block in used then
        Ok(Allocation(count, used - {block}, if block < hint then block else hint))
      else
        Err(InvalidBlock)
    }

    /** The bitmap bytes: bit `b % 8` of byte `b / 8` says whether block `b` is allocated. */
    function Bitmap(): (bitmap: seq<byte>)
      ensures |bitmap| == CeilDivide(count, 8)
    {
      seq(CeilDivide(count, 8), i requires 0 <= i < CeilDivide(count, 8) => ToByte(PackBits(used, i)))
    }
  }

  /** The block the next search starts from. */
  function Following(block: u64, count: u64): (next: u64)
    requires block < count
    ensures next == if block + 1 < count then block + 1 else 0
  {
    if block + 1 < count then DivModUnique(0, block + 1, count); (block + 1) % count
    else DivModUnique(1, 0, count); (block + 1) % count
  }

  /** The block looked at after `step` steps of the circular search. */
  function Circular(hint: u64, step: nat, count: u64): (block: u64)
    requires step < count && (hint < count || hint == 0)
    ensures block == if hint + step < count then hint + step else hint + step - count
  {
    if hint + step < count then DivModUnique(0, hint + step, count); (hint + step) % count
    else DivModUnique(1, hint + step - count, count); (hint + step) % count
  }

  function Members(blocks: seq<u64>): (s: set<u64>)
    ensures forall b :: b in s <==> b in blocks
  {
    set b | b in blocks
  }

  // ----- First fit -----

  lemma {:induction false} FreeIsComplete(a: Allocation, from: nat, block: u64)
    requires from <= block < a.count && block !in a.used
    ensures block in a.FreeFrom(from)
    decreases a.count - from
  {
    if from < block {
      FreeIsComplete(a, from + 1, block);
    }
  }

  /** The list of free blocks is complete and lowest first, so its head is the lowest free block. */
  lemma FreeIsLowestFirst(a: Allocation, k: nat, block: u64)
    requires k < |a.Free()| && block < a.Free()[k] && block !in a.used
    ensures block in a.Free()[..k]
  {
    FreeIsComplete(a, 0, block);
    var i :| 0 <= i < |a.Free()| && a.Free()[i] == block;
    assert i < k;
    assert a.Free()[..k][i] == block;
  }

  lemma {:induction false} FreeCount(a: Allocation, from: nat)
    requires from <= a.count
    ensures |a.FreeFrom(from)| + |UsedFrom(a, from)| == a.count - from
    decreases a.count - from
  {
    if from < a.count {
      FreeCount(a, from + 1);
      if from in a.used {
        assert UsedFrom(a, from) == UsedFrom(a, from + 1) + {from};
      } else {
        assert UsedFrom(a, from) == UsedFrom(a, from + 1);
      }
    } else {
      assert UsedFrom(a, from) == {};
    }
  }

  ghost function UsedFrom(a: Allocation, from: nat): set<u64> {
    set b | b in a.used && from <= b < a.count
  }

  /** A request fails exactly when it asks for more than the blocks that are not allocated. */
  lemma AllocateManyFailsWhenFull(a: Allocation, n: nat)
    requires a.Valid()
    ensures a.AllocateMany(n).Err? <==> n + |a.used| > a.count
  {
    FreeCount(a, 0);
    assert UsedFrom(a, 0) == a.used;
  }

  lemma {:induction false} FreeAfterTaking(a: Allocation, from: nat, hint: u64)
    requires a.FreeFrom(from) != []
    ensures Allocation(a.count, a.used + {a.FreeFrom(from)[0]}, hint).FreeFrom(from) == a.FreeFrom(from)[1..]
    decreases a.count - from
  {
    var first := a.FreeFrom(from)[0];
    var b := Allocation(a.count, a.used + {first}, hint);
    if from in a.used {
      FreeAfterTaking(a, from + 1, hint);
    } else {
      FreeAbove(a, b, from + 1);
    }
  }

  lemma {:induction false} FreeAbove(a: Allocation, b: Allocation, from: nat)
    requires a.count == b.count
    requires forall x :: from <= x < a.count ==> (x in a.used <==> x in b.used)
    ensures a.FreeFrom(from) == b.FreeFrom(from)
    decreases a.count - from
  {
    if from < a.count {
      FreeAbove(a, b, from + 1);
    }
  }

  /** Allocating keeps the hint invariant, and takes only blocks that were free. */
  lemma AllocateManyValid(a: Allocation, n: nat)
    requires a.Valid() && a.AllocateMany(n).Ok?
    ensures a.AllocateMany(n).value.0.Valid()
    ensures Members(a.AllocateMany(n).value.1) !! a.used
  {
    var (b, blocks) := a.AllocateMany(n).value;
    forall x: u64 | n > 0 && x < blocks[n - 1] ensures x in b.used {
      if x !in a.used {
        FreeIsLowestFirst(a, n - 1, x);
      }
    }
  }

  lemma ReleaseValid(a: Allocation, block: u64)
    requires a.Valid() && a.Release(block).Ok?
    ensures a.Release(block).value.Valid()
  {
  }

  // ----- Bits -----

  /** `1u << k`. */
  function Mask(k: nat): bv8
    requires k < 8
  {
    if k == 0 then 1 else if k == 1 then 2 else if k == 2 then 4 else if k == 3 then 8
    else if k == 4 then 16 else if k == 5 then 32 else if k == 6 then 64 else 128
  }

  predicate Bit(x: bv8, k: nat)
    requires k < 8
  {
    x & Mask(k) != 0
  }

  lemma SetBit(x: bv8, k: nat, j: nat)
    requires k < 8 && j < 8
    ensures Bit(x | Mask(k), j) <==> j == k || Bit(x, j)
  {
  }

  lemma ClearBit(x: bv8, k: nat, j: nat)
    requires k < 8 && j < 8
    ensures Bit(x & !Mask(k), j) <==> j != k && Bit(x, j)
  {
  }

  lemma ZeroBits(k: nat)
    requires k < 8
    ensures !Bit(0, k)
  {
  }

  lemma SameBits(x: bv8, y: bv8)
    requires forall k :: 0 <= k < 8 ==> (Bit(x, k) <==> Bit(y, k))
    ensures x == y
  {
    assert Bit(x, 0) <==> Bit(y, 0);
    assert Bit(x, 1) <==> Bit(y, 1);
    assert Bit(x, 2) <==> Bit(y, 2);
    assert Bit(x, 3) <==> Bit(y, 3);
    assert Bit(x, 4) <==> Bit(y, 4);
    assert Bit(x, 5) <==> Bit(y, 5);
    assert Bit(x, 6) <==> Bit(y, 6);
    assert Bit(x, 7) <==> Bit(y, 7);
    EightBits(x, y);
  }

  lemma EightBits(x: bv8, y: bv8)
    requires x & 1 == 0 <==> y & 1 == 0
    requires x & 2 == 0 <==> y & 2 == 0
    requires x & 4 == 0 <==> y & 4 == 0
    requires x & 8 == 0 <==> y & 8 == 0
    requires x & 16 == 0 <==> y & 16 == 0
    requires x & 32 == 0 <==> y & 32 == 0
    requires x & 64 == 0 <==> y & 64 == 0
    requires x & 128 == 0 <==> y & 128 == 0
    ensures x == y
  {
  }

  function ToByte(x: bv8): byte {
    x as int
  }

  function FromByte(b: byte): bv8 {
    b as bv8
  }

  lemma ByteRoundTrip(x: bv8)
    ensures FromByte(ToByte(x)) == x
  {
  }

  function Choose(set_: bool, k: nat): bv8
    requires k < 8
  {
    if set_ then Mask(k) else 0
  }

  function PackBits(used: set<u64>, i: nat): bv8 {
    Choose(8 * i in used, 0) | Choose(8 * i + 1 in used, 1) | Choose(8 * i + 2 in used, 2)
    | Choose(8 * i + 3 in used, 3) | Choose(8 * i + 4 in used, 4) | Choose(8 * i + 5 in used, 5)
    | Choose(8 * i + 6 in used, 6) | Choose(8 * i + 7 in used, 7)
  }

  lemma PackedBit(used: set<u64>, i: nat, k: nat)
    requires k < 8
    ensures Bit(PackBits(used, i), k) <==> 8 * i + k in used
  {
    PackedBitAt(8 * i in used, 8 * i + 1 in used, 8 * i + 2 in used, 8 * i + 3 in used,
                8 * i + 4 in used, 8 * i + 5 in used, 8 * i + 6 in used, 8 * i + 7 in used);
  }

  lemma PackedBitAt(b0: bool, b1: bool, b2: bool, b3: bool, b4: bool, b5: bool, b6: bool, b7: bool)
    ensures var x := Choose(b0, 0) | Choose(b1, 1) | Choose(b2, 2) | Choose(b3, 3)
                   | Choose(b4, 4) | Choose(b5, 5) | Choose(b6, 6) | Choose(b7, 7);
            && (Bit(x, 0) <==> b0) && (Bit(x, 1) <==> b1) && (Bit(x, 2) <==> b2) && (Bit(x, 3) <==> b3)
            && (Bit(x, 4) <==> b4) && (Bit(x, 5) <==> b5) && (Bit(x, 6) <==> b6) && (Bit(x, 7) <==> b7)
  {
  }

  predicate BitAt(bits: seq<bv8>, block: nat)
    requires block / 8 < |bits|
  {
    Bit(bits[block / 8], block % 8)
  }

  /** The bits of the last byte beyond the last block. */
  predicate TailClear(bits: seq<bv8>, count: nat)
    requires |bits| == CeilDivide(count, 8)
  {
    count % 8 != 0 ==> bits[|bits| - 1] & !(Mask(count % 8) - 1) == 0
  }

  /** Clear tail bits are exactly bits of no block. */
  lemma TailClearMeans(bits: seq<bv8>, count: nat)
    requires |bits| == CeilDivide(count, 8)
    ensures TailClear(bits, count) <==> forall block :: count <= block < 8 * |bits| ==> !BitAt(bits, block)
  {
    hide Bit, Mask;
    if count % 8 != 0 {
      var last := |bits| - 1;
      assert last == count / 8;
      TailMask(bits[last], count % 8);
      if TailClear(bits, count) {
        forall block | count <= block < 8 * |bits| ensures !BitAt(bits, block) {
          assert block / 8 == last && block % 8 >= count % 8;
        }
      } else {
        var k :| count % 8 <= k < 8 && Bit(bits[last], k);
        assert BitAt(bits, 8 * last + k);
      }
    }
  }

  lemma TailMask(x: bv8, from: nat)
    requires 0 < from < 8
    ensures x & !(Mask(from) - 1) == 0 <==> forall k :: from <= k < 8 ==> !Bit(x, k)
  {
    if x & !(Mask(from) - 1) == 0 {
      forall k | from <= k < 8 ensures !Bit(x, k) {
        TailMaskBit(x, from, k);
      }
    } else {
      TailMaskSome(x, from);
      assert exists k :: from <= k < 8 && Bit(x, k);
    }
  }

  lemma TailMaskBit(x: bv8, from: nat, k: nat)
    requires 0 < from <= k < 8
    requires x & !(Mask(from) - 1) == 0
    ensures !Bit(x, k)
  {
  }

  lemma TailMaskSome(x: bv8, from: nat)
    requires 0 < from < 8
    requires x & !(Mask(from) - 1) != 0
    ensures (from <= 1 && Bit(x, 1)) || (from <= 2 && Bit(x, 2)) || (from <= 3 && Bit(x, 3)) || (from <= 4 && Bit(x, 4))
            || (from <= 5 && Bit(x, 5)) || (from <= 6 && Bit(x, 6)) || Bit(x, 7)
  {
  }

  // ----- The allocator object -----

  /** The blocks a bitmap marks as allocated. */
  function UsedBlocks(bits: seq<bv8>, count: u64): set<u64>
    requires |bits| == CeilDivide(count, 8)
  {
    set b: u64 | b < count && BitAt(bits, b)
  }

  /** The allocator a bitmap describes; bits beyond the last block must be clear. */
  function LoadAllocation(count: u64, bitmap: seq<byte>, limits: Limits): Result<Allocation> {
    if count == 0 || count > limits.maxBlocks || |bitmap| != CeilDivide(count, 8) then Err(InvalidBlock)
    else if !TailClear(FromBytes(bitmap), count) then Err(InvalidBlock)
    else Ok(Allocation(count, UsedBlocks(FromBytes(bitmap), count), 0))
  }

  lemma UsedBelow(bits: seq<bv8>, count: u64)
    requires |bits| == CeilDivide(count, 8)
    ensures Allocation(count, UsedBlocks(bits, count), 0).Valid()
  {
  }

  class BlockAllocator {
    const limits: Limits
    var blockCount: u64
    var bits: array<bv8>
    var searchHint: u64

    ghost predicate Valid()
      reads this, bits
    {
      && bits.Length == CeilDivide(blockCount, 8)
      && TailClear(bits[..], blockCount)
      && View().Valid()
    }

    function View(): Allocation
      requires bits.Length == CeilDivide(blockCount, 8)
      reads this, bits
    {
      Allocation(blockCount, UsedBlocks(bits[..], blockCount), searchHint)
    }

    constructor (limits: Limits)
      ensures this.limits == limits && fresh(bits)
      ensures Valid() && View() == Allocation(0, {}, 0)
    {
      this.limits := limits;
      blockCount, searchHint := 0, 0;
      bits := new bv8[0];
    }

    predicate IsAllocated(block: u64)
      requires bits.Length == CeilDivide(blockCount, 8)
      reads this, bits
      ensures IsAllocated(block) <==> block in View().used
    {
      block < blockCount && BitAt(bits[..], block)
    }

    /** `bits_[block / 8] |= 1u << (block % 8)`. */
    method Mark(block: u64)
      requires Valid() && block < blockCount
      modifies bits
      ensures bits.Length == CeilDivide(blockCount, 8) && TailClear(bits[..], blockCount)
      ensures View() == old(View()).(used := old(View()).used + {block})
    {
      ghost var before := bits[..];
      bits[block / 8] := bits[block / 8] | Mask(block % 8);
      MarkedBits(before, bits[..], blockCount, block);
    }

    method Unmark(block: u64)
      requires Valid() && block < blockCount
      modifies bits
      ensures bits.Length == CeilDivide(blockCount, 8) && TailClear(bits[..], blockCount)
      ensures View() == old(View()).(used := old(View()).used - {block})
    {
      ghost var before := bits[..];
      bits[block / 8] := bits[block / 8] & !Mask(block % 8);
      UnmarkedBits(before, bits[..], blockCount, block);
    }

    /** An allocator over `count` blocks in which just `reserved` is allocated. */
    method Initialize(count: u64, reserved: seq<u64>) returns (r: Result<()>)
      modifies this
      ensures r.Ok? <==>
              0 < count <= limits.maxBlocks
              && (forall i :: 0 <= i < |reserved| ==> reserved[i] < count)
              && (forall i, j :: 0 <= i < j < |reserved| ==> reserved[i] != reserved[j])
      ensures r.Ok? ==> fresh(bits) && Valid() && View() == Allocation(count, Members(reserved), 0)
    {
      hide BitAt, Bit, Mask, Allocation.FreeFrom;
      if count == 0 || count > limits.maxBlocks {
        return Err(ResourceLimit);
      }
      bits := new bv8[CeilDivide(count, 8)](_ => 0);
      blockCount, searchHint := count, 0;
      AllClear(bits[..], count);
      var i := 0;
      while i < |reserved|
        invariant 0 <= i <= |reserved|
        invariant fresh(bits) && Valid() && blockCount == count && searchHint == 0
        invariant View() == Allocation(count, Members(reserved[..i]), 0)
        invariant forall k :: 0 <= k < i ==> reserved[k] < count
        invariant forall j, k :: 0 <= j < k < i ==> reserved[j] != reserved[k]
      {
        assert reserved[..i + 1] == reserved[..i] + [reserved[i]];
        var step := Reserve(reserved[i]);
        if step.Err? {
          return Err(step.code);
        }
        i := i + 1;
      }
      assert reserved[..i] == reserved;
      return Ok(());
    }

    method Load(count: u64, bitmap: seq<byte>) returns (r: Result<()>)
      modifies this
      ensures r.Ok? <==> LoadAllocation(count, bitmap, limits).Ok?
      ensures r.Ok? ==> fresh(bits) && Valid() && LoadAllocation(count, bitmap, limits) == Ok(View())
      ensures r.Err? ==> LoadAllocation(count, bitmap, limits) == Err(r.code)
    {
      hide BitAt, Bit, Allocation.FreeFrom, FromByte, UsedBlocks, Mask;
      var required := CeilDivide(count, 8);
      if count == 0 || count > limits.maxBlocks || required != |bitmap| {
        return Err(InvalidBlock);
      }
      bits := new bv8[|bitmap|](i requires 0 <= i < |bitmap| => FromByte(bitmap[i]));
      assert bits[..] == FromBytes(bitmap);
      blockCount, searchHint := count, 0;
      UsedBelow(bits[..], count);
      if count % 8 != 0 {
        var allowed := Mask(count % 8) - 1;
        if bits[bits.Length - 1] & !allowed != 0 {
          return Err(InvalidBlock);
        }
      }
      return Ok(());
    }

    /** The lowest free block. */
    method Allocate() returns (r: Result<u64>)
      requires Valid()
      modifies this`searchHint, bits
      ensures Valid()
      ensures r.Ok? <==> old(View()).Free() != []
      ensures r.Ok? ==>
              r.value == old(View()).Free()[0]
              && View() == Allocation(old(View()).count, old(View()).used + {r.value}, Following(r.value, blockCount))
      ensures r.Err? ==> View() == old(View())
    {
      hide TailClear, UsedBlocks, BitAt, Allocation.FreeFrom, Circular, Following;
      ghost var before := View();
      if blockCount == 0 {
        NoneFree(before, 0);
        return Err(InternalError);
      }
      var step := 0;
      while step < blockCount
        invariant 0 <= step <= blockCount
        invariant unchanged(this) && unchanged(bits) && View() == before
        invariant forall x: u64 :: x < Min(searchHint + step, blockCount) ==> x in before.used
      {
        var block := Circular(searchHint, step, blockCount);
        if !IsAllocated(block) {
          LowestFree(before, block);
          Mark(block);
          searchHint := Following(block, blockCount);
          return Ok(block);
        }
        step := step + 1;
      }
      assert Min(searchHint + step, blockCount) == blockCount;
      NoneFree(before, 0);
      return Err(NoSpace);
    }

    method AllocateMany(n: nat) returns (r: Result<seq<u64>>)
      requires Valid()
      modifies this`searchHint, bits
      ensures Valid()
      ensures r.Ok? <==> old(View()).AllocateMany(n).Ok?
      ensures r.Ok? ==> old(View()).AllocateMany(n) == Ok((View(), r.value))
      ensures r.Err? ==> old(View()).AllocateMany(n) == Err(r.code) && View() == old(View())
    {
      hide TailClear, UsedBlocks, BitAt;
      ghost var before := View();
      var available := FreeCount();
      if n > available {
        return Err(NoSpace);
      }
      assert before.Free()[0..] == before.Free();
      var result: seq<u64> := [];
      while |result| < n
        invariant |result| <= n <= |before.Free()|
        invariant Valid() && blockCount == before.count
        invariant result == before.Free()[..|result|]
        invariant View().Free() == before.Free()[|result|..]
        invariant View() == before.AllocateMany(|result|).value.0
      {
        ghost var middle := View();
        var block := Allocate();
        FreeAfterTaking(middle, 0, View().hint);
        TakeNext(before, |result|, middle, View(), block.value);
        result := result + [block.value];
      }
      return Ok(result);
    }

    method Reserve(block: u64) returns (r: Result<()>)
      requires Valid()
      modifies bits
      ensures Valid()
      ensures r.Ok? <==> block < blockCount && block !in old(View()).used
      ensures r.Ok? ==> View() == old(View()).(used := old(View()).used + {block})
      ensures r.Err? ==> View() == old(View())
    {
      if block >= blockCount {
        return Err(InvalidBlock);
      }
      if IsAllocated(block) {
        return Err(AlreadyExists);
      }
      Mark(block);
      return Ok(());
    }

    method Release(block: u64) returns (r: Result<()>)
      requires Valid()
      modifies this`searchHint, bits
      ensures Valid()
      ensures r.Ok? <==> old(View()).Release(block).Ok?
      ensures r.Ok? ==> old(View()).Release(block) == Ok(View())
      ensures r.Err? ==> old(View()).Release(block) == Err(r.code) && View() == old(View())
    {
      if block >= blockCount {
        return Err(InvalidBlock);
      }
      if !IsAllocated(block) {
        return Err(InvalidBlock);
      }
      Unmark(block);
      if block < searchHint {
        searchHint := block;
      }
      return Ok(());
    }

    method AllocatedCount() returns (taken: nat)
      requires Valid()
      ensures taken + |View().Free()| == blockCount
    {
      taken := 0;
      var block := 0;
      while block < blockCount
        invariant 0 <= block <= blockCount
        invariant taken <= block
        invariant block - taken + |View().FreeFrom(block)| == |View().Free()|
      {
        if IsAllocated(block) {
          taken := taken + 1;
        }
        block := block + 1;
      }
    }

    method FreeCount() returns (free: nat)
      requires Valid()
      ensures free == |View().Free()|
    {
      var taken := AllocatedCount();
      return blockCount - taken;
    }

    method Bitmap() returns (bitmap: seq<byte>)
      requires Valid()
      ensures bitmap == View().Bitmap()
    {
      bitmap := seq(bits.Length, i requires 0 <= i < bits.Length reads this, bits => ToByte(bits[i]));
      BitmapOfBits(bits[..], View());
    }

    /** Move assignment from a saved copy. */
    method Restore(saved: Allocation)
      requires saved.Valid()
      modifies this
      ensures fresh(bits) && Valid() && View() == saved
    {
      var bitmap := saved.Bitmap();
      bits := new bv8[|bitmap|](i requires 0 <= i < |bitmap| => FromByte(bitmap[i]));
      assert bits[..] == FromBytes(bitmap);
      blockCount, searchHint := saved.count, saved.hint;
      LoadBitmap(saved);
    }

    method Verify() returns (r: Result<()>)
      requires bits.Length == CeilDivide(blockCount, 8)
      ensures r.Ok? <==> blockCount != 0 && TailClear(bits[..], blockCount)
    {
      if blockCount == 0 {
        return Err(InvalidBlock);
      }
      if blockCount % 8 != 0 {
        var allowed := Mask(blockCount % 8) - 1;
        if bits[bits.Length - 1] & !allowed != 0 {
          return Err(InvalidBlock);
        }
      }
      return Ok(());
    }
  }

  function FromBytes(bitmap: seq<byte>): (bits: seq<bv8>)
    ensures |bits| == |bitmap|
  {
    seq(|bitmap|, i requires 0 <= i < |bitmap| => FromByte(bitmap[i]))
  }

  lemma AllClear(bits: seq<bv8>, count: u64)
    requires |bits| == CeilDivide(count, 8)
    requires forall i :: 0 <= i < |bits| ==> bits[i] == 0
    ensures UsedBlocks(bits, count) == {} && TailClear(bits, count)
  {
    forall block | 0 <= block < 8 * |bits| ensures !BitAt(bits, block) {
      ZeroBits(block % 8);
    }
    TailClearMeans(bits, count);
  }

  lemma MarkedBits(before: seq<bv8>, after: seq<bv8>, count: u64, block: u64)
    requires |before| == |after| == CeilDivide(count, 8) && block < count
    requires after == before[block / 8 := before[block / 8] | Mask(block % 8)]
    requires TailClear(before, count)
    ensures UsedBlocks(after, count) == UsedBlocks(before, count) + {block}
    ensures TailClear(after, count)
  {
    hide Bit, Mask, TailClear;
    forall x | 0 <= x < 8 * |after| ensures BitAt(after, x) <==> x == block || BitAt(before, x) {
      SetBit(before[block / 8], block % 8, x % 8);
    }
    TailClearMeans(before, count);
    TailClearMeans(after, count);
  }

  lemma UnmarkedBits(before: seq<bv8>, after: seq<bv8>, count: u64, block: u64)
    requires |before| == |after| == CeilDivide(count, 8) && block < count
    requires after == before[block / 8 := before[block / 8] & !Mask(block % 8)]
    requires TailClear(before, count)
    ensures UsedBlocks(after, count) == UsedBlocks(before, count) - {block}
    ensures TailClear(after, count)
  {
    hide Bit, Mask, TailClear;
    forall x | 0 <= x < 8 * |after| ensures BitAt(after, x) <==> x != block && BitAt(before, x) {
      ClearBit(before[block / 8], block % 8, x % 8);
    }
    TailClearMeans(before, count);
    TailClearMeans(after, count);
  }

  lemma LowestFree(a: Allocation, block: u64)
    requires block < a.count && block !in a.used
    requires forall x: u64 :: x < block ==> x in a.used
    ensures a.Free() != [] && a.Free()[0] == block
  {
    FreeIsComplete(a, 0, block);
  }

  /** One more step of taking free blocks in order. */
  lemma TakeNext(a: Allocation, n: nat, middle: Allocation, next: Allocation, block: u64)
    requires n < |a.Free()| && a.AllocateMany(n).Ok? && middle == a.AllocateMany(n).value.0
    requires block == a.Free()[n]
    requires next == Allocation(a.count, middle.used + {block}, Following(block, a.count))
    ensures a.Free()[..n + 1] == a.Free()[..n] + [block]
    ensures a.AllocateMany(n + 1).Ok? && next == a.AllocateMany(n + 1).value.0
  {
    assert a.Free()[..n + 1] == a.Free()[..n] + [block];
  }

  lemma {:induction false} NoneFree(a: Allocation, from: nat)
    requires forall x: u64 :: x < a.count ==> x in a.used
    ensures a.FreeFrom(from) == []
    decreases a.count - from
  {
    if from < a.count {
      NoneFree(a, from + 1);
    }
  }

  lemma BitmapOfBits(bits: seq<bv8>, a: Allocation)
    requires |bits| == CeilDivide(a.count, 8) && TailClear(bits, a.count)
    requires a.used == UsedBlocks(bits, a.count)
    ensures seq(|bits|, i requires 0 <= i < |bits| => ToByte(bits[i])) == a.Bitmap()
  {
    hide Bit, Mask, TailClear, PackBits;
    TailClearMeans(bits, a.count);
    forall i | 0 <= i < |bits| ensures bits[i] == PackBits(a.used, i) {
      forall k | 0 <= k < 8 ensures Bit(bits[i], k) <==> Bit(PackBits(a.used, i), k) {
        PackedBit(a.used, i, k);
        assert BitAt(bits, 8 * i + k) <==> Bit(bits[i], k);
      }
      SameBits(bits[i], PackBits(a.used, i));
    }
  }

  /** Loading the bitmap a valid allocator writes gives the same blocks. */
  lemma LoadBitmap(a: Allocation)
    requires a.Valid()
    ensures TailClear(FromBytes(a.Bitmap()), a.count)
    ensures UsedBlocks(FromBytes(a.Bitmap()), a.count) == a.used
  {
    hide Bit, Mask, TailClear, PackBits, FromByte, ToByte;
    var bits := FromBytes(a.Bitmap());
    forall block | 0 <= block < 8 * |bits| ensures BitAt(bits, block) <==> block in a.used {
      ByteRoundTrip(PackBits(a.used, block / 8));
      PackedBit(a.used, block / 8, block % 8);
    }
    TailClearMeans(bits, a.count);
  }
}
