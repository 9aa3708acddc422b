/** The inode table: identifiers in use, and the next one to try. */
module InodeTables {
  import opened Base
  import opened Extents
  import opened Inodes

  /** The value of an inode table. */
  datatype Table = Table(inodes: map<u64, Inode>, next: u64) {

    /** Kept from `initialize` on by `allocate`, `erase` and in-place updates: every identifier
        below the next one is in use, so the next one is a lower bound for the unused ones. */
    ghost predicate Valid(limits: Limits) {
      && 1 <= next
      && (forall id: u64 :: 1 <= id < next ==> id in inodes)
      && (forall id :: id in inodes ==> 1 <= id <= limits.maxInodes && inodes[id].identifier == id)
    }

    /** The first unused identifier from the next one on. */
    function Unused(from: u64, limits: Limits): (found: Option<u64>)
      ensures found.Some? ==> from <= found.value <= limits.maxInodes && found.value !in inodes
      ensures found.Some? ==> forall id: u64 :: from <= id < found.value ==> id in inodes
      ensures found.None? ==> forall id: u64 :: from <= id <= limits.maxInodes ==> id in inodes
      decreases limits.maxInodes + 1 - from
    {
      if from > limits.maxInodes then None
      else if from !in inodes then Some(from)
      else Unused(from + 1, limits)
    }

    /** A failed search leaves the cursor past the limit. */
    function Allocate(limits: Limits, inodeType: InodeType, mode: u16): (r: (Table, Result<u64>))
      ensures r.1.Ok? ==> r.1.value in r.0.inodes
    {
      if !inodeType.Usable() then
        (this, Err(InvalidInode))
      else if |inodes| >= limits.maxInodes || next > limits.maxInodes then
        (this, Err(NoSpace))
      else
        match Unused(next, limits)
        case None => (Table(inodes, limits.maxInodes + 1), Err(NoSpace))
        case Some(id) => (Table(inodes[id := FreshInode(id, inodeType, mode)], id + 1), Ok(id))
    }

    function Insert(limits: Limits, inode: Inode): Result<Table> {
      if inode.identifier == 0 || inode.identifier > limits.maxInodes then Err(InvalidInode)
      else if inode.identifier in inodes then Err(AlreadyExists)
      else if |inodes| >= limits.maxInodes then Err(ResourceLimit)
      else Ok(Table(inodes[inode.identifier := inode], Max(next, inode.identifier + 1)))
    }

    function Erase(id: u64): Result<Table> {
      if id !in inodes then Err(NotFound)
      else Ok(Table(inodes - {id}, if id < next then id else next))
    }

    /** Writing through the pointer `get` returns. */
    function Put(id: u64, inode: Inode): Table {
      Table(inodes[id := inode], next)
    }
  }

  function FreshInode(id: u64, inodeType: InodeType, mode: u16): Inode {
    Inode(id, inodeType, mode, 0, 0, if inodeType == Directory then 2 else 1, 0, 0, 0, 0, 0, 1, [], [], [], false)
  }

  function Identifiers(limit: u64): (ids: set<u64>)
    ensures forall id :: id in ids <==> 1 <= id <= limit
    ensures |ids| == limit
  {
    if limit == 0 then {} else Identifiers(limit - 1) + {limit}
  }

  /** A table that holds as many inodes as the limit allows holds every identifier. */
  lemma FullTable(table: Table, limits: Limits, id: u64)
    requires table.Valid(limits)
    requires |table.inodes| >= limits.maxInodes
    requires 1 <= id <= limits.maxInodes
    ensures id in table.inodes
  {
    if id !in table.inodes {
      assert table.inodes.Keys <= Identifiers(limits.maxInodes) - {id};
      SubsetSize(table.inodes.Keys, Identifiers(limits.maxInodes) - {id});
    }
  }

  lemma TableCount(table: Table, limits: Limits)
    requires table.Valid(limits)
    ensures |table.inodes| <= limits.maxInodes
  {
    assert table.inodes.Keys <= Identifiers(limits.maxInodes);
    SubsetSize(table.inodes.Keys, Identifiers(limits.maxInodes));
  }

  /** allocate returns the smallest unused identifier, and fails only when none is left. */
  lemma AllocateIsSmallest(table: Table, limits: Limits, inodeType: InodeType, mode: u16)
    requires table.Valid(limits) && inodeType.Usable()
    ensures var (after, r) := table.Allocate(limits, inodeType, mode);
            && after.Valid(limits)
            && (r.Ok? ==> 1 <= r.value <= limits.maxInodes && r.value !in table.inodes
                          && after.inodes == table.inodes[r.value := FreshInode(r.value, inodeType, mode)])
            && (r.Ok? ==> forall id: u64 :: 1 <= id < r.value ==> id in table.inodes)
            && (r.Err? ==> after == table && forall id: u64 :: 1 <= id <= limits.maxInodes ==> id in table.inodes)
  {
    if |table.inodes| >= limits.maxInodes {
      forall id: u64 | 1 <= id <= limits.maxInodes ensures id in table.inodes {
        FullTable(table, limits, id);
      }
    } else if table.next <= limits.maxInodes && table.Unused(table.next, limits).None? {
      assert forall id: u64 :: 1 <= id <= limits.maxInodes ==> id in table.inodes;
      SubsetSize(Identifiers(limits.maxInodes), table.inodes.Keys);
    }
  }

  lemma EraseValid(table: Table, limits: Limits, id: u64)
    requires table.Valid(limits) && table.Erase(id).Ok?
    ensures table.Erase(id).value.Valid(limits)
  {
  }

  class InodeTable {
    const limits: Limits
    var inodes: map<u64, Inode>
    var nextIdentifier: u64

    function View(): Table
      reads this
    {
      Table(inodes, nextIdentifier)
    }

    constructor (limits: Limits)
      ensures this.limits == limits && View() == Table(map[], 1)
    {
      this.limits := limits;
      inodes := map[];
      nextIdentifier := 1;
    }

    method Initialize()
      modifies this
      ensures View() == Table(map[], 1) && View().Valid(limits)
    {
      inodes := map[];
      nextIdentifier := 1;
    }

    method Allocate(inodeType: InodeType, mode: u16) returns (r: Result<u64>)
      modifies this
      ensures (View(), r) == old(View()).Allocate(limits, inodeType, mode)
    {
      hide FreshInode, InodeType.Usable, Table.Unused;
      if !inodeType.Usable() {
        return Err(InvalidInode);
      }
      if |inodes| >= limits.maxInodes || nextIdentifier > limits.maxInodes {
        return Err(NoSpace);
      }
      var found := Search();
      if !found {
        return Err(NoSpace);
      }
      var identifier := nextIdentifier;
      nextIdentifier := nextIdentifier + 1;
      inodes := inodes[identifier := FreshInode(identifier, inodeType, mode)];
      return Ok(identifier);
    }

    /** Moves the cursor to the first unused identifier from it on, or past the limit. */
    method Search() returns (found: bool)
      requires nextIdentifier <= limits.maxInodes
      modifies this
      ensures inodes == old(inodes)
      ensures old(View()).Unused(old(nextIdentifier), limits) == if found then Some(nextIdentifier) else None
      ensures !found ==> nextIdentifier == limits.maxInodes + 1
    {
      while nextIdentifier in inodes
        invariant inodes == old(inodes) && 0 <= nextIdentifier <= limits.maxInodes
        invariant View().Unused(nextIdentifier, limits) == old(View()).Unused(old(nextIdentifier), limits)
        decreases limits.maxInodes - nextIdentifier
      {
        SameKeysUnused(View(), old(View()), nextIdentifier + 1, limits);
        nextIdentifier := nextIdentifier + 1;
        SameKeysUnused(View(), old(View()), nextIdentifier, limits);
        if nextIdentifier > limits.maxInodes {
          return false;
        }
      }
      return true;
    }

    method Insert(inode: Inode) returns (r: Result<()>)
      modifies this
      ensures r.Ok? <==> old(View()).Insert(limits, inode).Ok?
      ensures r.Ok? ==> old(View()).Insert(limits, inode) == Ok(View())
      ensures r.Err? ==> old(View()).Insert(limits, inode) == Err(r.code) && View() == old(View())
    {
      if inode.identifier == 0 || inode.identifier > limits.maxInodes {
        return Err(InvalidInode);
      }
      if inode.identifier in inodes {
        return Err(AlreadyExists);
      }
      if |inodes| >= limits.maxInodes {
        return Err(ResourceLimit);
      }
      nextIdentifier := Max(nextIdentifier, inode.identifier + 1);
      inodes := inodes[inode.identifier := inode];
      return Ok(());
    }

    method Erase(id: u64) returns (r: Result<()>)
      modifies this
      ensures r.Ok? <==> old(View()).Erase(id).Ok?
      ensures r.Ok? ==> old(View()).Erase(id) == Ok(View())
      ensures r.Err? ==> old(View()).Erase(id) == Err(r.code) && View() == old(View())
    {
      if id !in inodes {
        return Err(NotFound);
      }
      inodes := inodes - {id};
      if id < nextIdentifier {
        nextIdentifier := id;
      }
      return Ok(());
    }

    method Put(id: u64, inode: Inode)
      requires id in inodes
      modifies this
      ensures View() == old(View()).Put(id, inode)
    {
      inodes := inodes[id := inode];
    }

    method SetNextIdentifier(value: u64)
      modifies this
      ensures View() == old(View()).(next := Max(1, value))
    {
      nextIdentifier := Max(1, value);
    }

    /** Move assignment from a saved copy. */
    method Restore(saved: Table)
      modifies this
      ensures View() == saved
    {
      inodes := saved.inodes;
      nextIdentifier := saved.next;
    }

    /** Every inode sits under its own identifier and validates, or the first error. */
    method Verify(superblock: Superblock) returns (r: Result<()>)
      requires superblock.blockSize > 0
      ensures r == VerifyTable(View(), superblock, limits)
    {
      hide Inode.Validate, SortedKeys;
      if |inodes| > limits.maxInodes {
        return Err(ResourceLimit);
      }
      var keys := SortedKeys(inodes.Keys);
      var index := 0;
      while index < |keys|
        invariant 0 <= index <= |keys|
        invariant VerifyInodes(inodes, keys[index..], superblock, limits) == VerifyInodes(inodes, keys, superblock, limits)
      {
        assert keys[index..][1..] == keys[index + 1..];
        var inode := inodes[keys[index]];
        if inode.identifier != keys[index] {
          return Err(InvalidInode);
        }
        var valid := ValidateInode(inode, superblock, limits);
        if valid.Err? {
          return valid;
        }
        index := index + 1;
      }
      return Ok(());
    }
  }

  /** The inodes under some keys, in order. */
  function VerifyInodes(inodes: map<u64, Inode>, keys: seq<u64>, superblock: Superblock, limits: Limits): (r: Result<()>)
    requires superblock.blockSize > 0 && forall k :: k in keys ==> k in inodes
    ensures r.Ok? <==> forall k :: k in keys ==> inodes[k].identifier == k && inodes[k].Validate(superblock, limits).Ok?
  {
    if keys == [] then Ok(())
    else
      assert forall k :: k in keys <==> k == keys[0] || k in keys[1..];
      if inodes[keys[0]].identifier != keys[0] then Err(InvalidInode)
      else
        var valid := inodes[keys[0]].Validate(superblock, limits);
        var rest := VerifyInodes(inodes, keys[1..], superblock, limits);
        if valid.Err? then valid else rest
  }

  function VerifyTable(table: Table, superblock: Superblock, limits: Limits): (r: Result<()>)
    requires superblock.blockSize > 0
    ensures r.Ok? <==> Verified(table, superblock, limits)
  {
    if |table.inodes| > limits.maxInodes then Err(ResourceLimit)
    else VerifyInodes(table.inodes, SortedKeys(table.inodes.Keys), superblock, limits)
  }

  lemma {:induction false} SameKeysUnused(a: Table, b: Table, from: u64, limits: Limits)
    requires a.inodes == b.inodes
    ensures a.Unused(from, limits) == b.Unused(from, limits)
    decreases limits.maxInodes + 1 - from
  {
    if from <= limits.maxInodes && from in a.inodes {
      SameKeysUnused(a, b, from + 1, limits);
    }
  }

  predicate Verified(table: Table, superblock: Superblock, limits: Limits)
    requires superblock.blockSize > 0
  {
    && |table.inodes| <= limits.maxInodes
    && forall id :: id in table.inodes ==>
         table.inodes[id].identifier == id && table.inodes[id].Validate(superblock, limits).Ok?
  }
}
