/** The filesystem object: the parts it owns, updated in place, against the operations as functions. */
module Filesystems {
  import opened Base
  import opened Bytes
  import opened Devices
  import opened Allocators
  import opened Extents
  import opened Inodes
  import opened InodeTables
  import opened Directories
  import opened Paths
  import Journals
  import opened FileData
  import opened FsModel
  import opened InodeCodecs
  import opened DirectoryCodecs
  import opened JournalCodecs
  import opened Crc
  import opened Images
  import opened Walks

  class Filesystem {
    const limits: Limits
    const device: BlockDevice
    const allocator: BlockAllocator
    const inodes: InodeTable
    const directories: DirectoryTable
    const journal: Journals.Journal
    var superblock: Superblock
    var mounted: bool
    var readOnly: bool
    var dirty: bool
    var snapshot: Option<Saved>

    ghost predicate Valid()
      reads this, device, device.bytes, allocator, allocator.bits, inodes, directories, journal
    {
      && device.limits == limits && allocator.limits == limits && inodes.limits == limits
      && directories.limits == limits && journal.limits == limits
      && (device.bytes as object) != (allocator.bits as object)
      && allocator.Valid() && superblock.blockSize > 0
      && (snapshot.Some? ==> SavedValid(snapshot.value))
    }

    static ghost predicate SavedValid(saved: Saved) {
      saved.core.allocation.Valid() && saved.core.superblock.blockSize > 0
    }

    ghost function Files(): Store
      requires allocator.Valid()
      reads device, device.bytes, allocator, allocator.bits
    {
      Store(device.View(), allocator.View())
    }

    ghost function Contents(): Core
      requires allocator.Valid()
      reads this, device, device.bytes, allocator, allocator.bits, inodes, directories
    {
      Core(superblock, device.View(), allocator.View(), inodes.View(), directories.directories)
    }

    ghost function View(): Fs
      requires allocator.Valid()
      reads this, device, device.bytes, allocator, allocator.bits, inodes, directories, journal
    {
      Fs(Contents(), journal.View(), mounted, readOnly, dirty, snapshot)
    }

    function Names(): Namespace
      reads this, inodes, directories
    {
      Namespace(inodes.inodes, directories.directories, superblock.rootInode)
    }

    constructor (limits: Limits)
      ensures this.limits == limits && Valid() && View() == UNFORMATTED
      ensures fresh(device) && fresh(device.bytes) && fresh(allocator) && fresh(allocator.bits)
      ensures fresh(inodes) && fresh(directories) && fresh(journal)
    {
      this.limits := limits;
      device := new BlockDevice(limits);
      allocator := new BlockAllocator(limits);
      inodes := new InodeTable(limits);
      directories := new DirectoryTable(limits);
      journal := new Journals.Journal(limits);
      superblock := Superblock(1, 4096, 0, 0, 0, 0, 1, 1, 0);
      mounted, readOnly, dirty, snapshot := false, false, false, None;
    }

    // ----- File contents -----

    /** Zeroes the new blocks and appends an extent for each. */
    method AttachBlocks(extents: seq<Extent>, blocks: seq<u64>, start: u64) returns (grown: seq<Extent>, r: Result<()>)
      requires Valid()
      modifies device.bytes
      ensures Valid() && allocator.View() == old(allocator.View())
      ensures (device.View(), grown, r) == Attach(old(device.View()), extents, blocks, start)
    {
      grown := extents;
      var next: u64, index := start, 0;
      assert blocks[0..] == blocks;
      while index < |blocks|
        invariant 0 <= index <= |blocks|
        invariant Valid() && allocator.View() == old(allocator.View())
        invariant Attach(device.View(), grown, blocks[index..], next) == Attach(old(device.View()), extents, blocks, start)
      {
        assert blocks[index..][1..] == blocks[index + 1..];
        var zeroed := device.Zero(blocks[index]);
        if zeroed.Err? {
          return grown, Err(zeroed.code);
        }
        grown := grown + [Extent(next, blocks[index], 1, false)];
        next := Wrap64(next + 1);
        index := index + 1;
      }
      return grown, Ok(());
    }

    method GrowInode(inode: Inode, oldBlocks: u64, newBlocks: u64) returns (grown: Inode, r: Result<()>)
      requires Valid() && oldBlocks <= newBlocks
      modifies device.bytes, allocator`searchHint, allocator.bits
      ensures Valid()
      ensures (Files(), grown, r) == Grow(old(Files()), inode, oldBlocks, newBlocks, superblock, limits)
    {
      hide Attach, Normalize, AfterNormalize, Allocation.AllocateMany;
      var blocks := allocator.AllocateMany(newBlocks - oldBlocks);
      if blocks.Err? {
        return inode, Err(blocks.code);
      }
      var extents, attached := AttachBlocks(inode.extents, blocks.value, oldBlocks);
      if attached.Err? {
        return inode.(extents := extents), Err(attached.code);
      }
      var normalized, after := NormalizeExtents(limits, extents, superblock.blockCount);
      if normalized.Err? {
        return inode.(extents := after), Err(normalized.code);
      }
      return inode.(extents := after), Ok(());
    }

    /** Releases a run of blocks, stopping at the first that is not allocated. */
    method ReleaseBlocks(from: nat, end: nat) returns (r: Result<()>)
      requires Valid()
      modifies allocator`searchHint, allocator.bits
      ensures Valid()
      ensures (allocator.View(), r) == ReleaseRange(old(allocator.View()), from, end)
    {
      hide Allocation.Release;
      var block := from;
      while block < end
        invariant Valid() && from <= block
        invariant ReleaseRange(allocator.View(), block, end) == ReleaseRange(old(allocator.View()), from, end)
      {
        var released := allocator.Release(Wrap64(block));
        if released.Err? {
          return Err(released.code);
        }
        block := block + 1;
      }
      return Ok(());
    }

    method ShrinkInode(inode: Inode, newBlocks: u64) returns (shrunk: Inode, r: Result<()>)
      requires Valid()
      modifies allocator`searchHint, allocator.bits
      ensures Valid()
      ensures (Files(), shrunk, r) == Shrink(old(Files()), inode, newBlocks)
    {
      hide ReleaseRange;
      var extents := inode.extents;
      var retained: seq<Extent> := [];
      var index := 0;
      assert extents[0..] == extents;
      while index < |extents|
        invariant 0 <= index <= |extents|
        invariant Valid()
        invariant Detach(allocator.View(), extents[index..], retained, newBlocks) == Detach(old(allocator.View()), extents, [], newBlocks)
      {
        var e := extents[index];
        assert extents[index..][1..] == extents[index + 1..];
        var end := e.LogicalEnd();
        if end.Err? {
          return inode, Err(end.code);
        }
        var keep := Kept(e, newBlocks);
        if !e.sparse {
          var released := ReleaseBlocks(e.physical + keep, e.physical + e.blockCount);
          if released.Err? {
            return inode, Err(released.code);
          }
        }
        if e.logical < newBlocks {
          retained := retained + [e.(blockCount := keep)];
        }
        index := index + 1;
      }
      return inode.(extents := retained), Ok(());
    }

    method ResizeInode(inode: Inode, size: u64) returns (changed: Inode, r: Result<()>)
      requires Valid()
      modifies device.bytes, allocator`searchHint, allocator.bits
      ensures Valid()
      ensures (Files(), changed, r) == Resize(old(Files()), inode, size, superblock, limits)
    {
      hide Grow, Shrink, PhysicalCount;
      if size > limits.maxFileBytes {
        return inode, Err(ResourceLimit);
      }
      var oldBlocks := CeilDivide(inode.size, superblock.blockSize);
      var newBlocks := CeilDivide(size, superblock.blockSize);
      changed, r := inode, Ok(());
      if newBlocks > oldBlocks {
        changed, r := GrowInode(inode, oldBlocks, newBlocks);
      } else if newBlocks < oldBlocks {
        changed, r := ShrinkInode(inode, newBlocks);
      }
      if r.Ok? {
        changed, r := SettleInode(changed, size);
      }
    }

    /** New size, byte count of the extents, generation. */
    method SettleInode(inode: Inode, size: u64) returns (settled: Inode, r: Result<()>)
      ensures (settled, r) == Settle(inode, size, superblock)
    {
      settled := inode.(size := size);
      var blocks, index := 0, 0;
      assert inode.extents[0..] == inode.extents;
      while index < |inode.extents|
        invariant 0 <= index <= |inode.extents|
        invariant blocks + PhysicalCount(inode.extents[index..]) == PhysicalCount(inode.extents)
      {
        assert inode.extents[index..][1..] == inode.extents[index + 1..];
        if !inode.extents[index].sparse {
          blocks := blocks + inode.extents[index].blockCount;
        }
        index := index + 1;
      }
      var total := CheckedMultiply(Wrap64(blocks), superblock.blockSize);
      if total.None? {
        return settled, Err(Overflow);
      }
      return settled.(allocatedBytes := total.value, generation := Wrap64(inode.generation + 1)), Ok(());
    }

    method WriteBlocks(extents: seq<Extent>, offset: u64, data: seq<byte>) returns (r: Result<()>)
      requires Valid()
      modifies device.bytes
      ensures Valid() && allocator.View() == old(allocator.View())
      ensures (device.View(), r) == WriteChunks(old(device.View()), extents, offset, data, superblock)
    {
      hide Map, Device.Write, BlockOf, Within;
      var consumed := 0;
      assert data[0..] == data;
      while consumed < |data|
        invariant 0 <= consumed <= |data|
        invariant Valid() && allocator.View() == old(allocator.View())
        invariant WriteChunks(device.View(), extents, offset + consumed, data[consumed..], superblock) ==
                  WriteChunks(old(device.View()), extents, offset, data, superblock)
      {
        var absolute := offset + consumed;
        var within := Within(absolute, superblock.blockSize);
        var chunk := ChunkLength(absolute, |data| - consumed, superblock.blockSize);
        var mapping := MapBlock(extents, Wrap64(BlockOf(absolute, superblock.blockSize)), superblock.blockCount);
        if mapping.Err? || mapping.value.physicalBlock.None? {
          return Err(InvalidExtent);
        }
        assert data[consumed..][..chunk] == data[consumed..consumed + chunk];
        assert data[consumed..][chunk..] == data[consumed + chunk..];
        var written := device.Write(mapping.value.physicalBlock.value, within, data[consumed..consumed + chunk]);
        if written.Err? {
          return Err(written.code);
        }
        consumed := consumed + chunk;
      }
      return Ok(());
    }

    /** `write_inode_data` through a pointer into the table. */
    method WriteInodeData(id: u64, offset: u64, data: seq<byte>) returns (r: Result<()>)
      requires Valid() && id in inodes.inodes
      modifies device.bytes, allocator`searchHint, allocator.bits, inodes
      ensures Valid()
      ensures (Contents(), r) == WriteInode(old(Contents()), id, offset, data, limits)
    {
      hide Resize, WriteChunks;
      var inode := inodes.inodes[id];
      assert inodes.View().Put(id, inode) == inodes.View();
      if |data| >= TWO64 {
        return Err(Overflow);
      }
      var end := CheckedAdd(offset, |data|);
      if end.None? || end.value > limits.maxFileBytes {
        return Err(Overflow);
      }
      if end.value > inode.size {
        var changed, resized := ResizeInode(inode, end.value);
        inodes.Put(id, changed);
        if resized.Err? {
          return Err(resized.code);
        }
        r := WriteBlocks(changed.extents, offset, data);
      } else {
        r := WriteBlocks(inode.extents, offset, data);
      }
    }

    method ReadInodeData(inode: Inode, offset: u64, count: nat) returns (r: Result<seq<byte>>)
      requires Valid()
      ensures r == ReadData(device.View(), inode, offset, count, superblock)
    {
      hide Map, Device.Read, BlockOf, Within, Zeros;
      if offset >= inode.size || count == 0 {
        return Ok([]);
      }
      var requested := Min(inode.size - offset, count);
      var output: seq<byte> := [];
      ghost var whole := ReadChunks(device.View(), inode.extents, offset, requested, superblock);
      assert whole.Ok? ==> [] + whole.value == whole.value;
      while |output| < requested
        invariant |output| <= requested
        invariant whole == Followed(output, ReadChunks(device.View(), inode.extents, offset + |output|, requested - |output|, superblock))
      {
        var absolute := offset + |output|;
        var chunk := ChunkLength(absolute, requested - |output|, superblock.blockSize);
        var mapping := MapBlock(inode.extents, Wrap64(BlockOf(absolute, superblock.blockSize)), superblock.blockCount);
        if mapping.Err? {
          return Err(mapping.code);
        }
        var bytes := Zeros(chunk);
        if mapping.value.physicalBlock.Some? {
          var read := device.Read(mapping.value.physicalBlock.value, Within(absolute, superblock.blockSize), chunk);
          if read.Err? {
            return Err(read.code);
          }
          ReadLength(device.View(), mapping.value.physicalBlock.value, Within(absolute, superblock.blockSize), chunk);
          bytes := read.value;
        }
        ghost var rest := ReadChunks(device.View(), inode.extents, absolute + chunk, requested - |output| - chunk, superblock);
        assert rest.Ok? ==> output + (bytes + rest.value) == output + bytes + rest.value;
        output := output + bytes;
      }
      assert output + [] == output;
      return Ok(output);
    }

    method ReleaseInodeBlocks(inode: Inode) returns (released: Inode, r: Result<()>)
      requires Valid()
      modifies allocator`searchHint, allocator.bits
      ensures Valid()
      ensures (allocator.View(), released, r) == ReleaseInode(old(allocator.View()), inode)
    {
      hide ReleaseRange;
      var extents, index := inode.extents, 0;
      assert extents[0..] == extents;
      while index < |extents|
        invariant 0 <= index <= |extents|
        invariant Valid()
        invariant ReleaseExtents(allocator.View(), extents[index..]) == ReleaseExtents(old(allocator.View()), extents)
      {
        var e := extents[index];
        assert extents[index..][1..] == extents[index + 1..];
        if !e.sparse {
          r := ReleaseBlocks(e.physical, e.physical + e.blockCount);
          if r.Err? {
            return inode, Err(r.code);
          }
        }
        index := index + 1;
      }
      return inode.(extents := [], allocatedBytes := 0), Ok(());
    }

    // ----- Bookkeeping -----

    method CheckWritable() returns (r: Result<()>)
      requires Valid()
      ensures r == EnsureWritable(View())
    {
      if !mounted {
        return Err(InternalError);
      }
      if readOnly {
        return Err(PermissionDenied);
      }
      return Ok(());
    }

    method RefreshCounts()
      requires Valid()
      modifies this`superblock
      ensures Valid() && View() == old(View()).(core := old(Contents()).Refreshed(limits))
    {
      var count := |inodes.inodes|;
      var free := allocator.FreeCount();
      superblock := superblock.(
        inodeCount := Wrap64(count),
        freeBlockCount := Wrap64(free),
        freeInodeCount := if limits.maxInodes > count then limits.maxInodes - count else 0);
    }

    method Touch()
      requires Valid()
      modifies this`superblock, this`dirty
      ensures Valid() && View() == old(View()).(core := old(Contents()).Touched(), dirty := true)
    {
      dirty := true;
      superblock := superblock.(generation := Wrap64(superblock.generation + 1));
    }

    method FinishOperation()
      requires Valid()
      modifies this`superblock, this`dirty
      ensures Valid() && View() == Finished(old(View()), limits)
    {
      hide Allocation.Free;
      Touch();
      RefreshCounts();
    }

    /** Appends a record while a transaction is open. */
    method JournalOperation(t: Journals.JournalType, target: u64, payload: seq<byte>) returns (r: Result<()>)
      requires Valid()
      modifies journal
      ensures Valid() && (View(), r) == Journaled(old(View()), t, target, payload, limits)
    {
      if journal.activeTransaction == 0 {
        return Ok(());
      }
      var appended := journal.Append(t, target, payload);
      if appended.Err? {
        return Err(appended.code);
      }
      return Ok(());
    }

    // ----- format -----

    /** An allocator with block 0 taken and tables holding just the root directory. */
    method PrepareTables(options: FormatOptions) returns (free: nat, root: u64)
      requires FormatAccepted(options, limits) && allocator.limits == limits && inodes.limits == limits
      modifies allocator, inodes, directories
      ensures root == 1 && allocator.Valid() && fresh(allocator.bits)
      ensures allocator.View() == Allocation(options.blockCount, {0}, 0) && free == |allocator.View().Free()|
      ensures inodes.View() == Table(map[1 := FreshInode(1, Directory, 493)], 2) && directories.directories == map[1 := Dots(1, 1)]
    {
      hide Allocation.Free, Table.Allocate, Members;
      OnlyBlockZero();
      FirstInode(limits);
      var _ := allocator.Initialize(options.blockCount, [0]);
      inodes.Initialize();
      var granted := inodes.Allocate(Directory, 493);
      root := granted.value;
      directories.InitializeRoot(root);
      free := allocator.FreeCount();
    }

    /** Refused as a whole, or a fresh filesystem holding just its root directory. */
    method Format(options: FormatOptions) returns (r: Result<()>)
      requires Valid()
      modifies this, device, allocator, inodes, directories, journal
      ensures Valid()
      ensures (View(), r) == FsModel.Format(old(View()), options, limits)
      ensures fresh(device.bytes) || device.bytes == old(device.bytes)
      ensures fresh(allocator.bits) || allocator.bits == old(allocator.bits)
    {
      hide Zeros, Allocation.Free, PowerOfTwo, Geometry, CreateDevice, Allocation.Valid;
      if !FormatAccepted(options, limits) {
        return Err(ResourceLimit);
      }
      FormatDevice(options, limits);
      var created := device.Create(options.blockSize, options.blockCount);
      if created.Err? {
        return Err(created.code);
      }
      var free, root := PrepareTables(options);
      StartAnew(Superblock(1, options.blockSize, options.blockCount, 1, Wrap64(free), options.inodeCapacity - 1, root, 1, 0));
      return Ok(());
    }

    method StartAnew(fresh': Superblock)
      modifies this, journal
      ensures superblock == fresh' && journal.View() == old(journal.View()).Cleared()
      ensures mounted && !readOnly && !dirty && snapshot.None?
    {
      superblock := fresh';
      journal.Clear();
      mounted, readOnly, dirty, snapshot := true, false, false, None;
    }

    // ----- create -----

    /** Takes back an identifier just granted. */
    method Forget(id: u64)
      requires Valid() && id in inodes.inodes
      modifies inodes
      ensures Valid() && inodes.View() == old(inodes.View()).Erase(id).value
    {
      var _ := inodes.Erase(id);
    }

    method AddNode(parent: u64, name: text, inodeType: InodeType, mode: u16, symlink: text) returns (r: Result<u64>)
      requires Valid()
      modifies inodes, directories
      ensures Valid()
      ensures (Contents(), r) == FsModel.AddNode(old(Contents()), parent, name, inodeType, mode, symlink, limits)
    {
      hide Table.Allocate, Add, Create, EraseDirectory;
      var granted := inodes.Allocate(inodeType, mode);
      if granted.Err? {
        return granted;
      }
      var id := granted.value;
      if inodeType == SymbolicLink {
        if symlink == [] || |symlink| > limits.maxPathBytes {
          Forget(id);
          return Err(InvalidPath);
        }
      }
      if inodeType == Directory {
        var created := directories.CreateTable(id, parent);
        if created.Err? {
          Forget(id);
          return Err(created.code);
        }
      }
      var added := directories.AddEntry(parent, NewEntry(id, inodeType, name));
      if added.Err? {
        if inodeType == Directory {
          var _ := directories.EraseTable(id);
        }
        Forget(id);
        return Err(added.code);
      }
      if inodeType == SymbolicLink {
        inodes.Put(id, inodes.inodes[id].(symlinkTarget := symlink, size := Wrap64(|symlink|)));
      }
      return granted;
    }

    /** Takes back a file whose content could not be written: name, blocks, inode. */
    method DropNode(parent: u64, name: text, id: u64)
      requires Valid() && id in inodes.inodes
      modifies allocator`searchHint, allocator.bits, inodes, directories
      ensures Valid() && Contents() == FsModel.DropNode(old(Contents()), parent, name, id)
    {
      hide ReleaseInode, Directories.Remove;
      var _ := directories.RemoveEntry(parent, name);
      var released, _ := ReleaseInodeBlocks(inodes.inodes[id]);
      inodes.Put(id, released);
      var _ := inodes.Erase(id);
    }

    method MakeNode(parent: u64, name: text, inodeType: InodeType, mode: u16, content: seq<byte>, symlink: text) returns (r: Result<u64>)
      requires Valid()
      modifies device.bytes, allocator`searchHint, allocator.bits, inodes, directories
      ensures Valid()
      ensures (Contents(), r) == FsModel.MakeNode(old(Contents()), parent, name, inodeType, mode, content, symlink, limits)
    {
      hide FsModel.AddNode, WriteInode, FsModel.DropNode;
      r := AddNode(parent, name, inodeType, mode, symlink);
      if r.Ok? && inodeType == Regular && content != [] {
        var written := WriteInodeData(r.value, 0, content);
        if written.Err? {
          DropNode(parent, name, r.value);
          return Err(written.code);
        }
      }
    }

    method CreateNode(path: text, inodeType: InodeType, mode: u16, content: seq<byte>, symlink: text) returns (r: Result<u64>)
      requires Valid()
      modifies this, device.bytes, allocator`searchHint, allocator.bits, inodes, directories, journal
      ensures Valid()
      ensures (View(), r) == FsModel.CreateNode(old(View()), path, inodeType, mode, content, symlink, limits)
    {
      hide ResolveParent, FsModel.MakeNode, Journaled, Finished, Directories.Find;
      var writable := CheckWritable();
      if writable.Err? {
        return Err(writable.code);
      }
      var place := ResolveParentPath(Names(), path, superblock.rootInode, limits);
      if place.Err? {
        return Err(place.code);
      }
      var (parent, name) := place.value;
      if Directories.Find(directories.directories, parent, name).Some? {
        return Err(AlreadyExists);
      }
      r := MakeNode(parent, name, inodeType, mode, content, symlink);
      if r.Ok? {
        var recorded := JournalOperation(Journals.AllocateInode, r.value, name);
        if recorded.Err? {
          return Err(recorded.code);
        }
        FinishOperation();
      }
    }

    method CreateDirectory(path: text, mode: u16) returns (r: Result<u64>)
      requires Valid()
      modifies this, device.bytes, allocator`searchHint, allocator.bits, inodes, directories, journal
      ensures Valid()
      ensures (View(), r) == FsModel.CreateNode(old(View()), path, Directory, mode, [], [], limits)
    {
      r := CreateNode(path, Directory, mode, [], []);
    }

    method CreateFile(path: text, content: seq<byte>, mode: u16) returns (r: Result<u64>)
      requires Valid()
      modifies this, device.bytes, allocator`searchHint, allocator.bits, inodes, directories, journal
      ensures Valid()
      ensures (View(), r) == FsModel.CreateNode(old(View()), path, Regular, mode, content, [], limits)
    {
      r := CreateNode(path, Regular, mode, content, []);
    }

    method CreateSymlink(target: text, path: text) returns (r: Result<u64>)
      requires Valid()
      modifies this, device.bytes, allocator`searchHint, allocator.bits, inodes, directories, journal
      ensures Valid()
      ensures (View(), r) == FsModel.CreateNode(old(View()), path, SymbolicLink, 511, [], target, limits)
    {
      r := CreateNode(path, SymbolicLink, 511, [], target);
    }

    method CreateHardLink(existing: text, path: text) returns (r: Result<u64>)
      requires Valid()
      modifies this, inodes, directories
      ensures Valid()
      ensures (View(), r) == FsModel.CreateHardLink(old(View()), existing, path, limits)
    {
      hide Resolve, ResolveParent, Add;
      var writable := CheckWritable();
      if writable.Err? {
        return Err(writable.code);
      }
      var source := ResolvePath(Names(), existing, superblock.rootInode, false, limits);
      if source.Err? {
        return Err(source.code);
      }
      var id := source.value.inode;
      if id !in inodes.inodes || inodes.inodes[id].inodeType == Directory {
        return Err(PermissionDenied);
      }
      var inode := inodes.inodes[id];
      if inode.linkCount >= limits.maxHardLinks {
        return Err(ResourceLimit);
      }
      var place := ResolveParentPath(Names(), path, superblock.rootInode, limits);
      if place.Err? {
        return Err(place.code);
      }
      var added := directories.AddEntry(place.value.0, NewEntry(inode.identifier, inode.inodeType, place.value.1));
      if added.Err? {
        return Err(added.code);
      }
      inodes.Put(id, inode.(linkCount := Wrap32(inode.linkCount + 1), generation := Wrap64(inode.generation + 1)));
      Touch();
      return Ok(id);
    }

    // ----- write and read -----

    /** What a journal record of a write says about it. */
    static method WritePayload(offset: u64, length: nat) returns (payload: seq<byte>)
      ensures payload == LittleEndian(offset, 8) + LittleEndian(Wrap64(length), 8)
    {
      payload := AppendWord([], offset, 8);
      payload := AppendWord(payload, Wrap64(length), 8);
    }

    method WriteFile(id: u64, offset: u64, data: seq<byte>) returns (r: Result<u64>)
      requires Valid() && id in inodes.inodes
      modifies this, device.bytes, allocator`searchHint, allocator.bits, inodes, journal
      ensures Valid()
      ensures (View(), r) == FsModel.WriteFile(old(View()), id, offset, data, limits)
    {
      hide WriteInode, Journaled, Finished, LittleEndian, Allocation.Valid;
      var written := WriteInodeData(id, offset, data);
      if written.Err? {
        return Err(written.code);
      }
      var payload := WritePayload(offset, |data|);
      var recorded := JournalOperation(Journals.WriteData, id, payload);
      if recorded.Err? {
        return Err(recorded.code);
      }
      FinishOperation();
      return Ok(id);
    }

    method Write(path: text, offset: u64, data: seq<byte>) returns (r: Result<u64>)
      requires Valid()
      modifies this, device.bytes, allocator`searchHint, allocator.bits, inodes, journal
      ensures Valid()
      ensures (View(), r) == FsModel.Write(old(View()), path, offset, data, limits)
    {
      hide Resolve, FsModel.WriteFile;
      var writable := CheckWritable();
      if writable.Err? {
        return Err(writable.code);
      }
      var at := ResolvePath(Names(), path, superblock.rootInode, true, limits);
      if at.Err? {
        return Err(at.code);
      }
      var id := at.value.inode;
      if id !in inodes.inodes || inodes.inodes[id].inodeType != Regular {
        return Err(if Names().IsDirectory(id) then IsDirectory else InvalidInode);
      }
      r := WriteFile(id, offset, data);
    }

    method Read(path: text, offset: u64, count: nat) returns (r: Result<seq<byte>>)
      requires Valid()
      ensures r == FsModel.Read(View(), path, offset, count, limits)
    {
      hide Resolve, ReadData;
      var at := ResolvePath(Names(), path, superblock.rootInode, true, limits);
      if at.Err? {
        return Err(at.code);
      }
      var id := at.value.inode;
      if id !in inodes.inodes || inodes.inodes[id].inodeType != Regular {
        return Err(if Names().IsDirectory(id) then IsDirectory else InvalidInode);
      }
      r := ReadInodeData(inodes.inodes[id], offset, count);
    }

    method Walk(path: text) returns (r: Result<seq<WalkEntry>>)
      requires Valid()
      ensures r == Walks.Walk(Names(), path, limits)
    {
      r := WalkPath(Names(), path, limits);
    }

    // ----- remove and rename -----

    /** The inode of a dropped name: gone with its blocks, and with its table if it is a directory. */
    method DropInode(id: u64, reported: u64) returns (r: Result<u64>)
      requires Valid() && id in inodes.inodes
      modifies allocator`searchHint, allocator.bits, inodes, directories
      ensures Valid()
      ensures (Contents(), r) == FsModel.DropInode(old(Contents()), id, reported)
    {
      hide ReleaseInode, EraseDirectory;
      var inode, released := ReleaseInodeBlocks(inodes.inodes[id]);
      inodes.Put(id, inode);
      if released.Err? {
        return Err(released.code);
      }
      if inode.inodeType == Directory {
        var erased := directories.EraseTable(inode.identifier);
        if erased.Err? {
          return Err(erased.code);
        }
      }
      var gone := inodes.Erase(inode.identifier);
      if gone.Err? {
        return Err(gone.code);
      }
      return Ok(reported);
    }

    method DropName(at: ResolvedPath) returns (r: Result<u64>)
      requires Valid()
      modifies allocator`searchHint, allocator.bits, inodes, directories
      ensures Valid()
      ensures (Contents(), r) == FsModel.DropName(old(Contents()), at)
    {
      hide FsModel.DropInode, Directories.Remove;
      var removed := directories.RemoveEntry(at.parent, at.name);
      if removed.Err? {
        return Err(removed.code);
      }
      if at.inode !in inodes.inodes {
        return Err(InternalError);
      }
      var inode := inodes.inodes[at.inode];
      if inode.linkCount > 0 {
        inode := inode.(linkCount := inode.linkCount - 1);
      }
      inodes.Put(at.inode, inode);
      if inode.linkCount == 0 || inode.inodeType == Directory {
        r := DropInode(at.inode, removed.value.inode);
      } else {
        r := Ok(removed.value.inode);
      }
    }

    method CollectChildren(entries: Entries) returns (children: seq<text>)
      ensures children == ChildNames(entries)
    {
      children := [];
      var index := 0;
      assert entries[0..] == entries;
      while index < |entries|
        invariant 0 <= index <= |entries|
        invariant children + ChildNames(entries[index..]) == ChildNames(entries)
      {
        var e := entries[index];
        assert entries[index..][1..] == entries[index + 1..];
        if !e.deleted && !e.IsDot() {
          ghost var rest := ChildNames(entries[index + 1..]);
          assert children + ([e.name] + rest) == children + [e.name] + rest;
          children := children + [e.name];
        } else {
          assert [] + ChildNames(entries[index + 1..]) == ChildNames(entries[index + 1..]);
        }
        index := index + 1;
      }
      assert children + [] == children;
    }

    method Remove(path: text, recursive: bool) returns (r: Result<u64>)
      requires Valid()
      modifies this, allocator`searchHint, allocator.bits, inodes, directories
      ensures Valid()
      ensures (View(), r) == RemovePath(old(View()), path, recursive, limits)
      decreases Headroom(path, limits)
    {
      hide Resolve, FsModel.DropName, ChildNames, Finished;
      var writable := CheckWritable();
      if writable.Err? {
        return Err(writable.code);
      }
      var at := ResolvePath(Names(), path, superblock.rootInode, false, limits);
      if at.Err? {
        return Err(at.code);
      }
      var id := at.value.inode;
      if id == superblock.rootInode {
        return Err(PermissionDenied);
      }
      if id !in inodes.inodes {
        return Err(InvalidInode);
      }
      ResolvedFits(Names(), path, limits);
      if inodes.inodes[id].inodeType == Directory && id in directories.directories {
        var children := CollectChildren(directories.directories[id]);
        if children != [] && !recursive {
          return Err(DirectoryNotEmpty);
        }
        var index := 0;
        assert children[0..] == children;
        while index < |children|
          invariant 0 <= index <= |children|
          invariant Valid()
          invariant RemoveChildren(View(), path, children[index..], limits) == RemoveChildren(old(View()), path, children, limits)
        {
          assert children[index..][1..] == children[index + 1..];
          if children[index] == [] {
            return Err(InternalError);
          }
          var removed := Remove(ChildPath(path, children[index]), true);
          if removed.Err? {
            return Err(removed.code);
          }
          index := index + 1;
        }
      }
      r := DropName(at.value);
      if r.Ok? {
        FinishOperation();
      }
    }

    method Rename(source: text, target: text) returns (r: Result<u64>)
      requires Valid()
      modifies this, directories
      ensures Valid()
      ensures (View(), r) == RenamePath(old(View()), source, target, limits)
    {
      hide Resolve, ResolveParent, Directories.Rename;
      var writable := CheckWritable();
      if writable.Err? {
        return Err(writable.code);
      }
      var from := ResolvePath(Names(), source, superblock.rootInode, false, limits);
      if from.Err? {
        return Err(from.code);
      }
      if from.value.inode == superblock.rootInode {
        return Err(PermissionDenied);
      }
      var place := ResolveParentPath(Names(), target, superblock.rootInode, limits);
      if place.Err? {
        return Err(place.code);
      }
      var moved := directories.RenameEntry(from.value.parent, from.value.name, place.value.0, place.value.1);
      if moved.Err? {
        return Err(moved.code);
      }
      Touch();
      return Ok(from.value.inode);
    }

    // ----- Transactions -----

    method Begin() returns (r: Result<()>)
      requires Valid()
      modifies this, journal
      ensures Valid() && (View(), r) == FsModel.Begin(old(View()), limits)
    {
      var writable := CheckWritable();
      if writable.Err? {
        return Err(writable.code);
      }
      if snapshot.Some? {
        return Err(TransactionError);
      }
      var copy := Saved(Core(superblock, device.View(), allocator.View(), inodes.View(), directories.directories), dirty);
      var begun := journal.Begin();
      if begun.Err? {
        return Err(begun.code);
      }
      snapshot := Some(copy);
      dirty := true;
      return Ok(());
    }

    method Commit() returns (r: Result<()>)
      requires Valid()
      modifies this, journal
      ensures Valid() && (View(), r) == FsModel.Commit(old(View()), limits)
    {
      hide Finished;
      if snapshot.None? {
        return Err(TransactionError);
      }
      var committed := journal.Commit();
      if committed.Err? {
        return Err(committed.code);
      }
      snapshot := None;
      FinishOperation();
      return Ok(());
    }

    method Rollback() returns (r: Result<()>)
      requires Valid()
      modifies this, device, allocator, inodes, directories, journal
      ensures Valid() && (View(), r) == FsModel.Rollback(old(View()), limits)
      ensures fresh(device.bytes) || device.bytes == old(device.bytes)
      ensures fresh(allocator.bits) || allocator.bits == old(allocator.bits)
    {
      hide Allocation.Valid;
      if snapshot.None? {
        return Err(TransactionError);
      }
      var ended := journal.Rollback();
      if ended.Err? {
        return Err(ended.code);
      }
      Reinstate(snapshot.value);
      return Ok(());
    }

    /** Takes back what was saved, and drops the copy. */
    method Reinstate(saved: Saved)
      requires Valid() && SavedValid(saved)
      modifies this, device, allocator, inodes, directories
      ensures Valid() && View() == old(View()).(core := saved.core, dirty := saved.dirty, snapshot := None)
      ensures fresh(device.bytes) && fresh(allocator.bits)
    {
      hide Allocation.Valid;
      superblock := saved.core.superblock;
      device.Restore(saved.core.device);
      allocator.Restore(saved.core.allocation);
      inodes.Restore(saved.core.table);
      directories.Restore(saved.core.dirs);
      dirty := saved.dirty;
      snapshot := None;
    }

    method Checkpoint() returns (r: Result<()>)
      requires Valid()
      modifies this, journal
      ensures Valid() && (View(), r) == FsModel.Checkpoint(old(View()), limits)
    {
      var writable := CheckWritable();
      if writable.Err? {
        return Err(writable.code);
      }
      if snapshot.Some? {
        return Err(TransactionError);
      }
      var marked := journal.Checkpoint();
      if marked.Err? {
        return Err(marked.code);
      }
      dirty := false;
      superblock := superblock.(journalSequence := Wrap64(journal.nextSequence - 1));
      return Ok(());
    }

    // ----- serialize -----

    method WriteInodeSection() returns (r: Result<seq<byte>>)
      requires FitsFields(limits)
      requires Valid()
      ensures r == InodeSection(inodes.inodes, limits)
    {
      hide EncodeInode, PutText, SortedKeys;
      var keys := SortedKeys(inodes.inodes.Keys);
      var head := AppendWord([], Wrap32(|inodes.inodes|), 4);
      assert head == LittleEndian(Wrap32(|inodes.inodes|), 4);
      var output := head;
      var index := 0;
      assert keys[0..] == keys;
      while index < |keys|
        invariant 0 <= index <= |keys|
        invariant Followed(head, PutInodes(inodes.inodes, keys, limits)) == Followed(output, PutInodes(inodes.inodes, keys[index..], limits))
      {
        assert keys[index..][1..] == keys[index + 1..];
        var record := WriteInodeRecord(inodes.inodes[keys[index]], limits);
        if record.Err? {
          return record;
        }
        ghost var rest := PutInodes(inodes.inodes, keys[index + 1..], limits);
        FollowedStep(output, PutText(record.value), rest);
        output := WriteText(output, record.value);
        index := index + 1;
      }
      assert output + [] == output;
      return Ok(output);
    }

    method WriteDirectorySection() returns (r: Result<seq<byte>>)
      requires FitsFields(limits)
      requires Valid()
      ensures r == DirectorySection(directories.directories, limits)
    {
      hide EncodeDirectory, PutText, SortedKeys, LittleEndian, PutDirectories;
      var dirs := directories.directories;
      var keys := SortedKeys(dirs.Keys);
      var head := AppendWord([], Wrap32(|dirs|), 4);
      assert head == LittleEndian(Wrap32(|dirs|), 4);
      var output := head;
      var index := 0;
      assert keys[0..] == keys;
      while index < |keys|
        invariant 0 <= index <= |keys|
        invariant Followed(head, PutDirectories(dirs, keys, limits)) == Followed(output, PutDirectories(dirs, keys[index..], limits))
      {
        DirectoriesNext(output, dirs, keys, index, limits);
        var record := WriteDirectoryRecord(dirs[keys[index]], limits);
        if record.Err? {
          return record;
        }
        output := AppendWord(output, keys[index], 8);
        output := WriteText(output, record.value);
        index := index + 1;
      }
      NoDirectoriesLeft(output, dirs, keys, limits);
      return Ok(output);
    }

    method SerializeImage() returns (r: Result<seq<byte>>)
      requires FitsFields(limits)
      requires Valid()
      ensures r == Serialize(View(), limits)
    {
      hide InodeSection, DirectorySection, EncodeJournal, HeaderWords, PutWords, Crc32;
      if !mounted {
        return Err(InternalError);
      }
      var bitmap := allocator.Bitmap();
      var inodeSection := WriteInodeSection();
      if inodeSection.Err? {
        return inodeSection;
      }
      var directorySection := WriteDirectorySection();
      if directorySection.Err? {
        return directorySection;
      }
      var journalSection := WriteJournal(journal.records, limits);
      if journalSection.Err? {
        return journalSection;
      }
      var s := Sections(bitmap, inodeSection.value, directorySection.value, journalSection.value, device.bytes[..]);
      assert SectionsOf(View(), limits) == Ok(s);
      var fits := SectionsFit([|s.bitmap|, |s.inodes|, |s.directories|, |s.journal|, |s.device|]);
      if !fits {
        return Err(ResourceLimit);
      }
      var body := s.Joined();
      var checksum := ComputeCrc32(body);
      var words := [1, superblock.blockSize, superblock.blockCount, Wrap64(|inodes.inodes|), superblock.rootInode, superblock.generation,
                    Wrap64(|s.bitmap|), Wrap64(|s.inodes|), Wrap64(|s.directories|), Wrap64(|s.journal|), Wrap64(|s.device|),
                    inodes.nextIdentifier, checksum, if dirty then 1 else 0];
      assert words == HeaderWords(View(), s, checksum) by { HeaderWordsAre(View(), s, checksum); }
      var output := WriteWords(IMAGE_MAGIC, words, HEADER_WIDTHS);
      output := output + Zeros(8);
      assert output == Header(View(), s, checksum);
      return Ok(output + body);
    }

    /** The running total of the header and the sections, refused as soon as it exceeds the limit. */
    method SectionsFit(lengths: seq<nat>) returns (fits: bool)
      requires |lengths| == 5
      ensures fits <==> HEADER_SIZE + lengths[0] + lengths[1] + lengths[2] + lengths[3] + lengths[4] <= limits.maxImageBytes
    {
      var total, index := HEADER_SIZE, 0;
      SumFive(lengths[0], lengths[1], lengths[2], lengths[3], lengths[4]);
      assert lengths == [lengths[0], lengths[1], lengths[2], lengths[3], lengths[4]];
      assert lengths[0..] == lengths;
      while index < |lengths|
        invariant 0 <= index <= |lengths|
        invariant total + Sum(lengths[index..]) == HEADER_SIZE + Sum(lengths)
        invariant index > 0 ==> total <= limits.maxImageBytes
      {
        assert lengths[index..][1..] == lengths[index + 1..];
        total := total + lengths[index];
        if total > limits.maxImageBytes {
          return false;
        }
        index := index + 1;
      }
      return true;
    }

    // ----- mount -----

    method CheckImage(data: seq<byte>, options: MountOptions) returns (r: Result<()>)
      requires FitsFields(limits)
      ensures r == CheckHeader(data, options, limits)
    {
      hide Crc32, ImageWords;
      if |data| < HEADER_SIZE {
        return Err(Truncated);
      }
      if |data| > limits.maxImageBytes || data[..8] != IMAGE_MAGIC {
        return Err(InvalidSignature);
      }
      var w := ReadHeader(data);
      if w[0] != 1 {
        return Err(InvalidVersion);
      }
      if w[13] > 1 || w[3] > limits.maxInodes || w[6] != CeilDivide(w[2], 8) {
        return Err(ResourceLimit);
      }
      if w[1] * w[2] != w[10] {
        return Err(Overflow);
      }
      if options.validateChecksums {
        var actual := ComputeCrc32(data[HEADER_SIZE..]);
        if actual != w[12] {
          return Err(ChecksumMismatch);
        }
      }
      if w[13] == 1 && !options.allowDirty && !options.replayJournal {
        return Err(JournalError);
      }
      return Ok(());
    }

    method ReadHeader(data: seq<byte>) returns (w: seq<nat>)
      requires |data| >= HEADER_SIZE
      ensures w == ImageWords(data)
    {
      HeaderWidthsSum();
      hide WordsAt;
      w := ReadWordsAt(data, 8, HEADER_WIDTHS);
    }

    method ReadRecordBytes(reader: CheckedReader) returns (r: Result<seq<byte>>)
      requires reader.Valid()
      modifies reader
      ensures reader.Valid()
      ensures r.Ok? <==> TakeRecordBytes(old(reader.Rest())).Ok?
      ensures r.Ok? ==> TakeRecordBytes(old(reader.Rest())) == Ok((r.value, reader.Rest()))
      ensures r.Err? ==> TakeRecordBytes(old(reader.Rest())) == Err(r.code)
    {
      hide TakeWord;
      var length := reader.ReadWord(4);
      if length.Err? {
        return Err(length.code);
      }
      if length.value > reader.Remaining() {
        return Err(Truncated);
      }
      r := reader.ReadBytes(length.value);
    }

    method ReadInodeSection(section: seq<byte>, count: nat, next: u64, loading: Superblock, loaded: InodeTable) returns (r: Result<()>)
      requires FitsFields(limits)
      requires loading.blockSize > 0 && loaded.limits == limits && loaded.View() == Table(map[], 1)
      modifies loaded
      ensures r.Ok? <==> LoadInodes(section, count, next, loading, limits).Ok?
      ensures r.Ok? ==> LoadInodes(section, count, next, loading, limits) == Ok(loaded.View())
      ensures r.Err? ==> LoadInodes(section, count, next, loading, limits) == Err(r.code)
    {
      hide DecodeInode, TakeRecordBytes, TakeWord, Table.Insert;
      var reader := new CheckedReader(section);
      var encoded := reader.ReadWord(4);
      if encoded.Err? || encoded.value != count {
        return Err(InvalidInode);
      }
      ghost var start := reader.Rest();
      var index := 0;
      while index < count
        invariant reader.Valid() && 0 <= index <= count && loaded.limits == limits
        invariant TakeInodes(reader.Rest(), count - index, loaded.View(), loading, limits) ==
                  TakeInodes(start, count, Table(map[], 1), loading, limits)
      {
        var record := ReadRecordBytes(reader);
        if record.Err? {
          return Err(record.code);
        }
        var inode := ReadInodeRecord(record.value, loading, limits);
        if inode.Err? {
          return Err(inode.code);
        }
        var inserted := loaded.Insert(inode.value);
        if inserted.Err? {
          return inserted;
        }
        index := index + 1;
      }
      if reader.Remaining() != 0 {
        return Err(InvalidOffset);
      }
      loaded.SetNextIdentifier(next);
      return Ok(());
    }

    method ReadDirectorySection(section: seq<byte>, count: nat, loaded: DirectoryTable) returns (r: Result<()>)
      requires FitsFields(limits)
      requires loaded.limits == limits && loaded.directories == map[]
      modifies loaded
      ensures r.Ok? <==> LoadDirectories(section, count, limits).Ok?
      ensures r.Ok? ==> LoadDirectories(section, count, limits) == Ok(loaded.directories)
      ensures r.Err? ==> LoadDirectories(section, count, limits) == Err(r.code)
    {
      hide DecodeDirectory, TakeRecordBytes, TakeWord, Load;
      WordSizes();
      var reader := new CheckedReader(section);
      var encoded := reader.ReadWord(4);
      if encoded.Err? || encoded.value > count {
        return Err(InvalidDirectory);
      }
      ghost var start := reader.Rest();
      var index := 0;
      while index < encoded.value
        invariant reader.Valid() && 0 <= index <= encoded.value && loaded.limits == limits
        invariant TakeDirectories(reader.Rest(), encoded.value - index, loaded.directories, limits) ==
                  TakeDirectories(start, encoded.value, map[], limits)
      {
        var id := reader.ReadWord(8);
        if id.Err? {
          return Err(id.code);
        }
        var record := ReadRecordBytes(reader);
        if record.Err? {
          return Err(record.code);
        }
        var entries := ReadDirectoryRecord(record.value, limits);
        if entries.Err? {
          return Err(entries.code);
        }
        var inserted := loaded.LoadTable(id.value, entries.value);
        if inserted.Err? {
          return inserted;
        }
        index := index + 1;
      }
      if reader.Remaining() != 0 {
        return Err(InvalidOffset);
      }
      return Ok(());
    }

    method ReadStore(s: Sections, w: seq<nat>) returns (r: Result<(Device, Allocation, nat)>)
      requires FitsFields(limits)
      requires FitWidths(w, HEADER_WIDTHS)
      ensures r.Err? ==> LoadStore(s, w, limits) == Err(r.code)
      ensures r.Ok? ==> LoadStore(s, w, limits) == Ok((r.value.0, r.value.1)) && r.value.1.Valid() && r.value.2 == |r.value.1.Free()|
    {
      hide OpenDevice, LoadAllocation, Allocation.Free;
      WordSizes();
      var loadedDevice := new BlockDevice(limits);
      var device' := loadedDevice.Open(s.device, w[1]);
      if device'.Err? {
        return Err(device'.code);
      }
      var loadedAllocator := new BlockAllocator(limits);
      var bits := loadedAllocator.Load(w[2], s.bitmap);
      if bits.Err? {
        return Err(bits.code);
      }
      var free := loadedAllocator.FreeCount();
      return Ok((loadedDevice.View(), loadedAllocator.View(), free));
    }

    /** Inodes and directories, and the first error of the checks against each other, which is reported
        only once the journal has been read. */
    method ReadTables(s: Sections, w: seq<nat>, loading: Superblock) returns (r: Result<(Table, Dirs)>, checked: Result<()>)
      requires FitsFields(limits)
      requires FitWidths(w, HEADER_WIDTHS) && loading.blockSize > 0 && loading.rootInode == w[4]
      ensures LoadTables(s, w, loading, limits) == r
      ensures r.Ok? ==> checked == FirstError(VerifyTable(r.value.0, loading, limits),
                                              VerifyDirectories(r.value.1, r.value.0.inodes, loading.rootInode, limits))
    {
      hide LoadInodes, LoadDirectories, VerifyTable, VerifyDirectories;
      WordSizes();
      checked := Ok(());
      var loadedInodes := new InodeTable(limits);
      var table := ReadInodeSection(s.inodes, w[3], w[11], loading, loadedInodes);
      if table.Err? {
        return Err(table.code), checked;
      }
      var loadedDirectories := new DirectoryTable(limits);
      var tables := ReadDirectorySection(s.directories, w[3], loadedDirectories);
      if tables.Err? {
        return Err(tables.code), checked;
      }
      checked := loadedInodes.Verify(loading);
      if checked.Ok? {
        checked := loadedDirectories.Verify(loadedInodes.inodes, loading.rootInode);
      }
      r := Ok((loadedInodes.View(), loadedDirectories.directories));
    }

    method ReadJournalSection(s: Sections) returns (r: Result<Journals.Log>)
      requires FitsFields(limits)
      ensures LoadJournal(s, limits) == r
    {
      hide DecodeJournal, Journals.Load;
      var records := ReadJournal(s.journal, limits);
      if records.Err? {
        return Err(records.code);
      }
      var loadedJournal := new Journals.Journal(limits);
      var sequence := loadedJournal.LoadRecords(records.value);
      if sequence.Err? {
        return Err(sequence.code);
      }
      return Ok(loadedJournal.View());
    }

    /** Every part of an image, loaded into new objects. */
    method ReadSections(s: Sections, w: seq<nat>) returns (r: Result<Loaded>)
      requires FitsFields(limits)
      requires FitWidths(w, HEADER_WIDTHS)
      ensures LoadSections(s, w, limits) == r
      ensures r.Ok? ==> r.value.core.allocation.Valid() && r.value.core.superblock.blockSize > 0
    {
      hide LoadStore, LoadTables, LoadJournal, VerifyTable, VerifyDirectories, Allocation.Free, Allocation.Valid;
      WordSizes();
      var store := ReadStore(s, w);
      if store.Err? {
        return Err(store.code);
      }
      var loading := Superblock(1, w[1], w[2], w[3], Wrap64(store.value.2),
                                if limits.maxInodes > w[3] then limits.maxInodes - w[3] else 0, w[4], w[5], 0);
      assert loading == LoadedSuperblock(w, store.value.1, limits);
      var tables, checked := ReadTables(s, w, loading);
      if tables.Err? {
        return Err(tables.code);
      }
      var log := ReadJournalSection(s);
      if log.Err? {
        return Err(log.code);
      }
      if checked.Err? {
        return Err(checked.code);
      }
      return Ok(Loaded(Core(loading, store.value.0, store.value.1, tables.value.0, tables.value.1), log.value, w[13] == 1));
    }

    /** Takes the place of everything the object held. */
    method Replace(l: Loaded, options: MountOptions)
      requires Valid() && l.core.allocation.Valid() && l.core.superblock.blockSize > 0
      modifies this, device, allocator, inodes, directories, journal
      ensures Valid() && View() == Fs(l.core, l.journal, true, options.readOnly, l.dirty, None)
      ensures fresh(device.bytes) && fresh(allocator.bits)
    {
      hide Allocation.Valid;
      device.Restore(l.core.device);
      allocator.Restore(l.core.allocation);
      inodes.Restore(l.core.table);
      directories.Restore(l.core.dirs);
      journal.Restore(l.journal);
      superblock := l.core.superblock;
      mounted, readOnly, dirty, snapshot := true, options.readOnly, l.dirty, None;
    }

    method ReadImage(data: seq<byte>, options: MountOptions) returns (r: Result<Loaded>)
      requires FitsFields(limits)
      ensures LoadImage(data, options, limits) == r
      ensures r.Ok? ==> r.value.core.allocation.Valid() && r.value.core.superblock.blockSize > 0
    {
      hide LoadSections, CutSections, CheckHeader, ImageWords, Allocation.Valid;
      var header := CheckImage(data, options);
      if header.Err? {
        return Err(header.code);
      }
      HeaderChecked(data, options, limits);
      var w := ReadHeader(data);
      var s := CutSections(data[HEADER_SIZE..], w);
      if s.Err? {
        return Err(s.code);
      }
      r := ReadSections(s.value, w);
    }

    /** Replaces everything by what an image holds, or leaves everything alone; an image that the options
        forbid for its open transaction is refused after it has replaced everything. */
    method Mount(data: seq<byte>, options: MountOptions) returns (r: Result<()>)
      requires FitsFields(limits)
      requires Valid()
      modifies this, device, allocator, inodes, directories, journal
      ensures Valid()
      ensures (View(), r) == Images.Mount(old(View()), data, options, limits)
      ensures fresh(device.bytes) || device.bytes == old(device.bytes)
      ensures fresh(allocator.bits) || allocator.bits == old(allocator.bits)
    {
      hide LoadImage, Core.Refreshed, Allocation.Valid;
      var loaded := ReadImage(data, options);
      if loaded.Err? {
        return Err(loaded.code);
      }
      Replace(loaded.value, options);
      if options.replayJournal && journal.activeTransaction != 0 && !options.allowDirty {
        return Err(JournalError);
      }
      RefreshCounts();
      return Ok(());
    }
  }

  lemma ReadLength(d: Device, block: u64, offset: u32, length: nat)
    requires d.Read(block, offset, length).Ok?
    ensures |d.Read(block, offset, length).value| == length
  {
    d.InBlockFits(block, offset, length);
  }

  lemma ResolvedFits(ns: Namespace, path: text, limits: Limits)
    requires Resolve(ns, path, ns.root, false, limits).Ok?
    ensures |path| <= limits.maxPathBytes
  {
  }

  function FirstError(first: Result<()>, second: Result<()>): Result<()> {
    if first.Err? then first else second
  }

  /** What has been read or written so far, in front of the rest. */
  function Followed(output: seq<byte>, rest: Result<seq<byte>>): Result<seq<byte>> {
    if rest.Ok? then Ok(output + rest.value) else rest
  }

  lemma FollowedStep(output: seq<byte>, part: seq<byte>, rest: Result<seq<byte>>)
    ensures rest.Ok? ==> output + (part + rest.value) == output + part + rest.value
  {
  }

  lemma NoDirectoriesLeft(output: seq<byte>, dirs: Dirs, keys: seq<u64>, limits: ImageLimits)
    requires forall k :: k in keys ==> k in dirs
    ensures Followed(output, PutDirectories(dirs, keys[|keys|..], limits)) == Ok(output)
  {
    assert output + [] == output;
  }

  lemma DirectoriesNext(output: seq<byte>, dirs: Dirs, keys: seq<u64>, index: nat, limits: ImageLimits)
    requires (forall k :: k in keys ==> k in dirs) && index < |keys|
    ensures var record := EncodeDirectory(dirs[keys[index]], limits);
            Followed(output, PutDirectories(dirs, keys[index..], limits)) ==
            if record.Err? then record
            else Followed(output + LittleEndian(keys[index], 8) + PutText(record.value), PutDirectories(dirs, keys[index + 1..], limits))
  {
    hide EncodeDirectory, LittleEndian, PutText;
    assert keys[index..][1..] == keys[index + 1..];
    var record := EncodeDirectory(dirs[keys[index]], limits);
    var rest := PutDirectories(dirs, keys[index + 1..], limits);
    if record.Ok? && rest.Ok? {
      var id, text := LittleEndian(keys[index], 8), PutText(record.value);
      assert output + (id + (text + rest.value)) == output + id + text + rest.value;
    }
  }

  lemma HeaderWordsAre(fs: Fs, s: Sections, checksum: u32)
    ensures HeaderWords(fs, s, checksum) ==
            [1, fs.core.superblock.blockSize, fs.core.superblock.blockCount, Wrap64(|fs.core.table.inodes|),
             fs.core.superblock.rootInode, fs.core.superblock.generation, Wrap64(|s.bitmap|), Wrap64(|s.inodes|),
             Wrap64(|s.directories|), Wrap64(|s.journal|), Wrap64(|s.device|), fs.core.table.next, checksum,
             if fs.dirty then 1 else 0]
  {
  }

  lemma OnlyBlockZero()
    ensures Members([0]) == {0}
  {
  }

  lemma FirstInode(limits: Limits)
    requires limits.maxInodes >= 1
    ensures Table(map[], 1).Allocate(limits, Directory, 493) == (Table(map[1 := FreshInode(1, Directory, 493)], 2), Ok(1))
  {
  }

  lemma FormatDevice(options: FormatOptions, limits: Limits)
    requires FormatAccepted(options, limits)
    ensures 0 <= options.blockSize * options.blockCount
    ensures CreateDevice(options.blockSize, options.blockCount, limits) ==
            if !Geometry(limits, options.blockSize) then Err(InvalidBlock)
            else if options.blockSize * options.blockCount > limits.maxImageBytes then Err(Overflow)
            else Ok(Device(options.blockSize, Zeros(options.blockSize * options.blockCount)))
    ensures Geometry(limits, options.blockSize) ==> options.blockSize > 0
  {
    hide Geometry, Zeros;
    GeometryPositive(options.blockSize, limits);
    MulMonotone(options.blockSize, 0, options.blockCount);
  }

  lemma GeometryPositive(blockSize: u32, limits: Limits)
    ensures Geometry(limits, blockSize) ==> blockSize > 0
  {
    hide PowerOfTwo;
  }

  lemma HeaderChecked(data: seq<byte>, options: MountOptions, limits: ImageLimits)
    requires CheckHeader(data, options, limits).Ok?
    ensures |data| >= HEADER_SIZE
  {
  }
}
